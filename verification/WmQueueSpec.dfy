/** Messages of the /dev/wm device: their byte framing, and a queue of whole messages
    that makes room by forgetting its oldest ones. */
module WmQueueSpec {
  import opened Arithmetic
  import opened Bytes

  const MAX_PAYLOAD := 256
  const HEADER := 12
  const RING_BYTES := 8192

  datatype Msg = Msg(src: nat, kind: nat, payload: seq<byte>)

  predicate WellFormed(m: Msg) {
    m.src < TWO32 && m.kind < TWO32 && |m.payload| <= MAX_PAYLOAD
  }

  // ---- Frames ----

  function Size(m: Msg): nat { HEADER + |m.payload| }

  function Header(m: Msg): (s: seq<byte>)
    requires WellFormed(m)
    ensures |s| == HEADER
  {
    U32(m.src) + U32(m.kind) + U32(|m.payload|)
  }

  function Frame(m: Msg): (s: seq<byte>)
    requires WellFormed(m)
    ensures |s| == Size(m)
  {
    Header(m) + m.payload
  }

  /** Whatever follows it, a frame announces its own length and fields. */
  lemma HeaderFields(m: Msg, rest: seq<byte>)
    requires WellFormed(m)
    ensures var s := Header(m) + rest;
            U32At(s, 0) == m.src && U32At(s, 4) == m.kind && U32At(s, 8) == |m.payload|
  {
    var s := Header(m) + rest;
    U32RoundTrip(m.src);
    U32RoundTrip(m.kind);
    U32RoundTrip(|m.payload|);
    assert s[..4] == U32(m.src) && s[4..8] == U32(m.kind) && s[8..12] == U32(|m.payload|);
  }

  predicate AllWellFormed(ms: seq<Msg>) {
    forall i :: 0 <= i < |ms| ==> WellFormed(ms[i])
  }

  /** The bytes a ring holds for a queue of messages. */
  function Flat(ms: seq<Msg>): (s: seq<byte>)
    requires AllWellFormed(ms)
    ensures |s| == Total(ms)
  {
    if ms == [] then [] else Frame(ms[0]) + Flat(ms[1..])
  }

  function Total(ms: seq<Msg>): nat {
    if ms == [] then 0 else Size(ms[0]) + Total(ms[1..])
  }

  /** Cuts a byte string into frames. */
  function Parse(s: seq<byte>): seq<Msg>
    decreases |s|
  {
    if |s| < HEADER || |s| < HEADER + U32At(s, 8) then []
    else
      var n := HEADER + U32At(s, 8);
      [Msg(U32At(s, 0), U32At(s, 4), s[HEADER..n])] + Parse(s[n..])
  }

  /** The bytes of a ring determine its messages. */
  lemma {:induction false} ParseFlat(ms: seq<Msg>)
    requires AllWellFormed(ms)
    ensures Parse(Flat(ms)) == ms
  {
    if ms != [] {
      ParseFlat(ms[1..]);
      ParseFrame(ms[0], Flat(ms[1..]));
    }
  }

  /** The first frame is cut off whole. */
  lemma {:induction false} ParseFrame(m: Msg, rest: seq<byte>)
    requires WellFormed(m)
    ensures Parse(Frame(m) + rest) == [m] + Parse(rest)
  {
    var s := Frame(m) + rest;
    assert s == Header(m) + (m.payload + rest);
    HeaderFields(m, m.payload + rest);
    assert s[HEADER..Size(m)] == m.payload;
    assert s[Size(m)..] == rest;
  }

  lemma {:induction false} FlatSnoc(ms: seq<Msg>, m: Msg)
    requires AllWellFormed(ms) && WellFormed(m)
    ensures Flat(ms + [m]) == Flat(ms) + Frame(m)
    ensures Total(ms + [m]) == Total(ms) + Size(m)
  {
    if ms == [] {
      assert ms + [m] == [m];
      assert Flat([m]) == Frame(m) + Flat([]);
    } else {
      assert (ms + [m])[1..] == ms[1..] + [m];
      FlatSnoc(ms[1..], m);
      assert Flat(ms + [m]) == Frame(ms[0]) + (Flat(ms[1..]) + Frame(m));
    }
  }

  // ---- Eviction ----

  predicate Fits(ms: seq<Msg>, need: nat) {
    Total(ms) + need <= RING_BYTES - 1
  }

  /** Drops the oldest messages until `need` more bytes fit. */
  function Evict(ms: seq<Msg>, need: nat): seq<Msg> {
    if ms == [] || Fits(ms, need) then ms else Evict(ms[1..], need)
  }

  /** What survives is the longest suffix that leaves room. */
  lemma {:induction false} EvictKeepsLongestSuffix(ms: seq<Msg>, need: nat) returns (k: nat)
    requires need <= RING_BYTES - 1
    ensures k <= |ms| && Evict(ms, need) == ms[k..]
    ensures Total(Evict(ms, need)) + need <= 8191
    ensures forall j :: 0 <= j < k ==> Total(ms[j..]) + need > 8191
  {
    if ms == [] || Fits(ms, need) {
      k := 0;
    } else {
      k := EvictKeepsLongestSuffix(ms[1..], need);
      assert ms[1..][k..] == ms[k + 1..];
      forall j | 0 <= j < k + 1 ensures Total(ms[j..]) + need > 8191 {
        if j == 0 {
          assert ms[0..] == ms;
        } else {
          assert ms[1..][j - 1..] == ms[j..];
        }
      }
      k := k + 1;
    }
  }

  function Enqueue(ms: seq<Msg>, m: Msg): seq<Msg> {
    Evict(ms, Size(m)) + [m]
  }
}
