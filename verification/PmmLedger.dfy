/** Who holds which physical frame, over every run of allocations and releases. */
module PmmLedger {
  import opened Arithmetic
  import opened PmmSpec

  /** A memory manager seen by its clients: the used frames, the frames nobody may have, what each
      grant still holds, and the counter of used blocks with the number of blocks. */
  datatype Ledger = Ledger(used: set<nat>, reserved: set<nat>, held: seq<set<nat>>, count: nat, max: nat)

  /** The calls of the manager; frames are given back singly or in a row. */
  datatype Op = AllocPage | AllocPages(n: nat) | AllocLarge | FreePage(f: nat) | FreePages(f: nat, n: nat)

  /** Free frames as the counter sees them, in 32-bit arithmetic. */
  function Spare(l: Ledger): nat { (l.max - l.count) % TWO32 }

  /** The searches look at whole words only. */
  function Limit(l: Ledger): nat { l.max / 32 * 32 }

  /** All frames but those of a last word that is not full; and as many spare frames as the counter leaves,
      as long as it does not exceed the number of frames. */
  lemma LimitIs(l: Ledger)
    ensures Limit(l) % 32 == 0 && Limit(l) <= l.max < Limit(l) + 32
    ensures l.count <= l.max < TWO32 ==> Spare(l) == l.max - l.count
  {
    if l.count <= l.max < TWO32 {
      SmallMod(l.max - l.count);
    }
  }

  /** What a call hands out: nothing when the counter refuses it or no run is free. */
  ghost function Granted(l: Ledger, op: Op): set<nat> {
    match op
    case AllocPage => if Spare(l) == 0 then {} else GrantRun(l.used, Limit(l), 1)
    case AllocPages(n) => if Spare(l) < n then {} else GrantRun(l.used, Limit(l), n)
    case AllocLarge => if Spare(l) < 2 * LARGE then {} else GrantLarge(l.used, Limit(l))
    case _ => {}
  }

  /** How many frames a call gives back, and which. */
  function GivenBack(op: Op): nat {
    match op
    case FreePage(_) => 1
    case FreePages(_, n) => n
    case _ => 0
  }

  ghost function Returned(op: Op): set<nat> {
    match op
    case FreePage(f) => Range(f, 1)
    case FreePages(f, n) => Range(f, n)
    case _ => {}
  }

  /** Every grant without the frames given back. */
  function Without(held: seq<set<nat>>, given: set<nat>): (r: seq<set<nat>>)
    ensures |r| == |held|
    ensures forall i :: 0 <= i < |held| ==> r[i] == held[i] - given
  {
    seq(|held|, i requires 0 <= i < |held| => held[i] - given)
  }

  ghost function Step(l: Ledger, op: Op): Ledger {
    Exchange(l, Granted(l, op), Returned(op), GivenBack(op))
  }

  /** The ledger after handing out `g` and taking back the `n` frames `given`. */
  ghost function Exchange(l: Ledger, g: set<nat>, given: set<nat>, n: nat): Ledger {
    Ledger(l.used + g - given, l.reserved, Without(l.held, given) + [g], (l.count + |g| - n) % TWO32, l.max)
  }

  ghost function Union(ss: seq<set<nat>>): set<nat> {
    if ss == [] then {} else ss[0] + Union(ss[1..])
  }

  /** Nobody holds a reserved frame or a frame someone else holds, and used means reserved or held. */
  ghost predicate Sound(l: Ledger) {
    && 0 in l.reserved
    && l.used == l.reserved + Union(l.held)
    && Apart(l.held, l.reserved)
  }

  ghost predicate Apart(held: seq<set<nat>>, reserved: set<nat>) {
    && (forall i :: 0 <= i < |held| ==> held[i] !! reserved)
    && (forall i, j :: 0 <= i < j < |held| ==> held[i] !! held[j])
  }

  /** A client gives back only frames that were handed out and are still held. */
  ghost predicate Owned(l: Ledger, op: Op) {
    Returned(op) <= Union(l.held)
  }

  lemma {:induction false} UnionConcat(a: seq<set<nat>>, b: seq<set<nat>>)
    ensures Union(a + b) == Union(a) + Union(b)
  {
    if a == [] {
      assert a + b == b;
    } else {
      assert (a + b)[1..] == a[1..] + b;
      UnionConcat(a[1..], b);
    }
  }

  lemma {:induction false} UnionHolds(ss: seq<set<nat>>, i: nat)
    requires i < |ss|
    ensures ss[i] <= Union(ss)
  {
    if i > 0 {
      UnionHolds(ss[1..], i - 1);
    }
  }

  lemma {:induction false} UnionWithout(ss: seq<set<nat>>, given: set<nat>)
    ensures Union(Without(ss, given)) == Union(ss) - given
  {
    if ss != [] {
      UnionWithout(ss[1..], given);
      assert Without(ss, given)[1..] == Without(ss[1..], given);
    }
  }

  /** A grant is made of frames nobody has, and it has the size the counter is told. */
  lemma GrantIsFresh(l: Ledger, op: Op)
    requires 0 in l.used
    ensures Granted(l, op) !! l.used && 0 !in Granted(l, op)
  {
    match op
    case AllocPage => GrantIsFree(l.used, Limit(l), 1);
    case AllocPages(n) => GrantIsFree(l.used, Limit(l), n);
    case AllocLarge => LargeIsFree(l.used, Limit(l));
    case _ =>
  }

  /** Handing out and taking back nothing. */
  lemma NothingGivenBack(l: Ledger, g: set<nat>)
    ensures Exchange(l, g, {}, 0).used == l.used + g
    ensures Exchange(l, g, {}, 0).count == (l.count + |g|) % TWO32
  {
  }

  lemma NothingHandedOut(l: Ledger, given: set<nat>, n: nat)
    ensures Exchange(l, {}, given, n).used == l.used - given
    ensures Exchange(l, {}, given, n).count == (l.count - n) % TWO32
  {
    assert l.used + {} == l.used;
  }

  /** A call hands out or takes back, not both. */
  lemma OneWay(l: Ledger, op: Op)
    ensures Returned(op) == {} || Granted(l, op) == {}
  {
  }

  lemma StepSound(l: Ledger, op: Op)
    requires Sound(l) && Owned(l, op)
    ensures Sound(Step(l, op))
  {
    GrantIsFresh(l, op);
    OneWay(l, op);
    ExchangeSound(l, Granted(l, op), Returned(op), GivenBack(op));
  }

  lemma ExchangeSound(l: Ledger, g: set<nat>, given: set<nat>, n: nat)
    requires Sound(l) && g !! l.used && given <= Union(l.held) && (g == {} || given == {})
    ensures Sound(Exchange(l, g, given, n))
  {
    var kept := Without(l.held, given);
    UnionWithout(l.held, given);
    UnionConcat(kept, [g]);
    assert Union([g]) == g + Union([]) == g;
    ReservedIsApart(l.held, l.reserved);
    ApartWithout(l.held, l.reserved, given);
    ApartSnoc(kept, l.reserved, g);
    assert l.used + g - given == l.reserved + (Union(l.held) - given + g);
  }

  lemma ApartWithout(held: seq<set<nat>>, reserved: set<nat>, given: set<nat>)
    requires Apart(held, reserved)
    ensures Apart(Without(held, given), reserved)
  {
  }

  lemma {:induction false} ApartSnoc(held: seq<set<nat>>, reserved: set<nat>, g: set<nat>)
    requires Apart(held, reserved) && g !! reserved && g !! Union(held)
    ensures Apart(held + [g], reserved)
  {
    forall i | 0 <= i < |held| ensures held[i] !! g {
      UnionHolds(held, i);
    }
  }

  lemma {:induction false} ReservedIsApart(held: seq<set<nat>>, reserved: set<nat>)
    requires forall i :: 0 <= i < |held| ==> held[i] !! reserved
    ensures Union(held) !! reserved
  {
    if held != [] {
      ReservedIsApart(held[1..], reserved);
    }
  }

  ghost function Run(l: Ledger, ops: seq<Op>): Ledger
    decreases |ops|
  {
    if ops == [] then l else Run(Step(l, ops[0]), ops[1..])
  }

  /** Every release of the run is of frames held at that point. */
  ghost predicate OwnedRun(l: Ledger, ops: seq<Op>)
    decreases |ops|
  {
    ops == [] || (Owned(l, ops[0]) && OwnedRun(Step(l, ops[0]), ops[1..]))
  }

  /** Over every run that gives back only held frames, singly or in rows: no frame is ever in two live
      grants, frame 0 and the other reserved frames are never handed out, and no frame leaks. */
  lemma {:induction false} NoFrameHandedOutTwice(l: Ledger, ops: seq<Op>)
    requires Sound(l) && OwnedRun(l, ops)
    ensures Sound(Run(l, ops)) && Run(l, ops).reserved == l.reserved && |Run(l, ops).held| == |l.held| + |ops|
    decreases |ops|
  {
    if ops != [] {
      StepSound(l, ops[0]);
      NoFrameHandedOutTwice(Step(l, ops[0]), ops[1..]);
    }
  }

  // ---- The counter ----

  /** How far the counter is from the number of used frames. */
  ghost function Drift(l: Ledger): int { (l.count - |l.used|) % TWO32 }

  lemma StepKeepsDrift(l: Ledger, op: Op)
    requires Sound(l) && Owned(l, op)
    ensures Drift(Step(l, op)) == Drift(l)
  {
    GrantIsFresh(l, op);
    OneWay(l, op);
    ReturnedSize(op);
    ExchangeKeepsDrift(l, Granted(l, op), Returned(op));
  }

  lemma ExchangeKeepsDrift(l: Ledger, g: set<nat>, given: set<nat>)
    requires g !! l.used && given <= l.used && (g == {} || given == {})
    ensures Drift(Exchange(l, g, given, |given|)) == Drift(l)
  {
    var used := l.used + g - given;
    if given == {} {
      assert used == l.used + g;
    } else {
      assert used == l.used - given && l.used == used + given;
    }
    assert |used| == |l.used| + |g| - |given|;
    SameDrift(l.count, |g| - |given|, |l.used|);
  }

  lemma ReturnedSize(op: Op)
    ensures |Returned(op)| == GivenBack(op)
  {
    match op
    case FreePage(f) => RangeSize(f, 1);
    case FreePages(f, n) => RangeSize(f, n);
    case _ =>
  }

  lemma SameDrift(c: int, d: int, u: int)
    ensures ((c + d) % TWO32 - (u + d)) % TWO32 == (c - u) % TWO32
  {
    var q := (c + d) / TWO32;
    assert (c + d) % TWO32 - (u + d) == c - u - TWO32 * q;
  }

  /** Over every such run the counter follows the bitmap exactly, whatever it started with. */
  lemma {:induction false} CounterFollowsBitmap(l: Ledger, ops: seq<Op>)
    requires Sound(l) && OwnedRun(l, ops)
    ensures Drift(Run(l, ops)) == Drift(l)
    decreases |ops|
  {
    if ops != [] {
      StepSound(l, ops[0]);
      StepKeepsDrift(l, ops[0]);
      CounterFollowsBitmap(Step(l, ops[0]), ops[1..]);
    }
  }
}
