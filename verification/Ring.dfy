/** Byte rings: the bytes between a read and a write position of a buffer. */
module Ring {
  import opened Bytes

  /** Buffer position of the byte `k` places after the start of the buffer, going round the end. */
  function Wrap(k: nat, cap: nat): nat
    requires k < 2 * cap
  {
    if k < cap then k else k - cap
  }

  function Distance(r: nat, w: nat, cap: nat): nat
    requires r < cap && w < cap
  {
    if w >= r then w - r else cap - r + w
  }

  /** The bytes between the read and the write position. */
  ghost function Unread(buf: seq<byte>, r: nat, w: nat): (s: seq<byte>)
    requires r < |buf| && w < |buf|
    ensures |s| == Distance(r, w, |buf|)
    ensures forall i :: 0 <= i < |s| ==> s[i] == buf[Wrap(r + i, |buf|)]
  {
    var n := Distance(r, w, |buf|);
    seq<byte>(n, i requires 0 <= i < n => buf[Wrap(r + i, |buf|)])
  }

  /** Bytes written at the write position, in front of the end of the buffer, become the newest. */
  lemma UnreadPut(buf: seq<byte>, now: seq<byte>, r: nat, w: nat, src: seq<byte>)
    requires |buf| == |now| && r < |buf| && w + |src| <= |buf| && w < |buf|
    requires Distance(r, w, |buf|) + |src| <= |buf| - 1
    requires now == buf[..w] + src + buf[w + |src|..]
    ensures Unread(now, r, Wrap(w + |src|, |buf|)) == Unread(buf, r, w) + src
  {
    var a, b := Unread(now, r, Wrap(w + |src|, |buf|)), Unread(buf, r, w) + src;
    var d := Distance(r, w, |buf|);
    assert |a| == |b|;
    forall i | 0 <= i < |a| ensures a[i] == b[i] {
      if i >= d {
        assert Wrap(r + i, |buf|) == w + (i - d);
      } else {
        assert a[i] == now[Wrap(r + i, |buf|)] == buf[Wrap(r + i, |buf|)];
      }
    }
  }

  /** Moving the read position forward drops the oldest bytes. */
  lemma UnreadDrop(buf: seq<byte>, r: nat, w: nat, n: nat)
    requires r < |buf| && w < |buf| && n <= Distance(r, w, |buf|)
    ensures Unread(buf, Wrap(r + n, |buf|), w) == Unread(buf, r, w)[n..]
  {
    var a, b := Unread(buf, Wrap(r + n, |buf|), w), Unread(buf, r, w)[n..];
    assert |a| == |b|;
    forall i | 0 <= i < |a| ensures a[i] == b[i] {
      assert Wrap(Wrap(r + n, |buf|) + i, |buf|) == Wrap(r + (n + i), |buf|);
    }
  }

  /** The oldest bytes lie in one piece, or in one piece up to the end of the buffer and one at its
      start. */
  lemma UnreadFront(buf: seq<byte>, r: nat, w: nat, n: nat)
    requires r < |buf| && w < |buf| && n <= Distance(r, w, |buf|)
    ensures Unread(buf, r, w)[..n] ==
            if n <= |buf| - r then buf[r..r + n] else buf[r..] + buf[..n - (|buf| - r)]
  {
  }
}
