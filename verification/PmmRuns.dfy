/** Runs of calls of the frame allocator are runs of the ledger. */
module PmmRuns {
  import opened Arithmetic
  import opened Sequences
  import opened PmmSpec
  import opened Pmm
  import opened PmmLedger

  /** The manager's bitmap and counter are those of the ledger. */
  ghost predicate Matches(m: Manager, l: Ledger)
    reads m, m.bitmap
  {
    m.Valid() && m.Used() == l.used && m.usedBlocks == l.count && m.maxBlocks == l.max
  }

  /** Held frames are above frame 0, and used frames are in memory. */
  lemma OwnedIsInMemory(m: Manager, l: Ledger, op: Op)
    requires Matches(m, l) && Sound(l) && Owned(l, op)
    ensures Returned(op) <= m.Used() && 0 !in Returned(op)
  {
    ReservedIsApart(l.held, l.reserved);
  }

  lemma {:induction false} RangeInMemory(f: nat, n: nat)
    requires n > 0 && forall k :: k in Range(f, n) ==> k < FRAMES
    ensures f + n <= FRAMES
  {
    assert f + n - 1 in Range(f, n);
  }

  lemma FrameAddress(f: nat)
    ensures f * BLOCK_SIZE / BLOCK_SIZE == f && (f > 0 ==> f * BLOCK_SIZE >= BLOCK_SIZE)
    ensures f < FRAMES ==> f * BLOCK_SIZE < TWO32
  {
  }

  /** One call is one step; the kernel stops when a page is asked for and the counter says that
      nothing is left. */
  method Perform(m: Manager, op: Op, ghost l: Ledger) returns (halted: bool)
    requires Matches(m, l) && Sound(l) && Owned(l, op)
    modifies m`usedBlocks, m.bitmap
    ensures Matches(m, Step(l, op)) && halted == (op.AllocPage? && Spare(l) == 0)
  {
    halted := false;
    match op
    case AllocPage => halted := TakeOne(m, l);
    case AllocPages(n) => TakeRun(m, n, l);
    case AllocLarge => TakeLarge(m, l);
    case FreePage(f) => GiveOne(m, f, l);
    case FreePages(f, n) => GiveRun(m, f, n, l);
  }

  /** A manager that handed out what the ledger grants is at the next state of the ledger. */
  lemma HandedOut(l: Ledger, op: Op, g: set<nat>, used: set<nat>, count: nat)
    requires (op.AllocPage? || op.AllocPages? || op.AllocLarge?) && g == Granted(l, op)
    requires used == l.used + g && count == Counted(l.count, |g|)
    ensures var next := Step(l, op); next.used == used && next.count == count && next.max == l.max
  {
    NothingGivenBack(l, g);
  }

  lemma TakenBack(l: Ledger, op: Op, used: set<nat>, count: nat)
    requires op.FreePage? || op.FreePages?
    requires used == l.used - Returned(op) && count == Counted(l.count, -(GivenBack(op) as int))
    ensures var next := Step(l, op); next.used == used && next.count == count && next.max == l.max
  {
    NothingHandedOut(l, Returned(op), GivenBack(op));
  }

  method TakeOne(m: Manager, ghost l: Ledger) returns (halted: bool)
    requires Matches(m, l)
    modifies m`usedBlocks, m.bitmap
    ensures Matches(m, Step(l, AllocPage)) && halted == (Spare(l) == 0)
  {
    NotCounted(l.count);
    OneGrant(l);
    var addr;
    halted, addr := m.AllocPage();
    HandedOut(l, AllocPage, Granted(l, AllocPage), m.Used(), m.usedBlocks);
  }

  lemma OneGrant(l: Ledger)
    ensures var f, g := Lowest(l.used, Limit(l), 1), Granted(l, AllocPage);
            if Spare(l) == 0 || f == 0 then g == {} else g == {f} && |g| == 1
  {
    OneFrame(Lowest(l.used, Limit(l), 1));
  }

  lemma {:induction false} OneFrame(f: nat)
    ensures Range(f, 1) == {f}
  {
  }

  method TakeRun(m: Manager, n: nat, ghost l: Ledger)
    requires Matches(m, l)
    modifies m`usedBlocks, m.bitmap
    ensures Matches(m, Step(l, AllocPages(n)))
  {
    ghost var g := if Spare(l) < n then {} else GrantRun(l.used, Limit(l), n);
    CallPages(m, n, g);
    HandedOut(l, AllocPages(n), g, m.Used(), m.usedBlocks);
  }

  method CallPages(m: Manager, n: nat, ghost g: set<nat>)
    requires m.Valid() && g == if m.Spare() < n then {} else GrantRun(m.Used(), m.Limit(), n)
    modifies m`usedBlocks, m.bitmap
    ensures m.Valid() && m.Used() == old(m.Used()) + g && m.usedBlocks == Counted(old(m.usedBlocks), |g|)
  {
    GrantIsFree(m.Used(), m.Limit(), n);
    var _ := m.AllocPages(n);
  }

  method TakeLarge(m: Manager, ghost l: Ledger)
    requires Matches(m, l)
    modifies m`usedBlocks, m.bitmap
    ensures Matches(m, Step(l, AllocLarge))
  {
    ghost var g := if Spare(l) < 2 * LARGE then {} else GrantLarge(l.used, Limit(l));
    CallLarge(m, g);
    HandedOut(l, AllocLarge, g, m.Used(), m.usedBlocks);
  }

  method CallLarge(m: Manager, ghost g: set<nat>)
    requires m.Valid() && g == if m.Spare() < 2 * LARGE then {} else GrantLarge(m.Used(), m.Limit())
    modifies m`usedBlocks, m.bitmap
    ensures m.Valid() && m.Used() == old(m.Used()) + g && m.usedBlocks == Counted(old(m.usedBlocks), |g|)
  {
    LargeIsFree(m.Used(), m.Limit());
    var _ := m.AllocAlignedLargePage();
  }

  method GiveOne(m: Manager, f: nat, ghost l: Ledger)
    requires Matches(m, l) && Sound(l) && Owned(l, FreePage(f))
    modifies m`usedBlocks, m.bitmap
    ensures Matches(m, Step(l, FreePage(f)))
  {
    OwnedIsInMemory(m, l, FreePage(f));
    OneFrame(f);
    FrameAddress(f);
    m.FreePage(f * BLOCK_SIZE);
    TakenBack(l, FreePage(f), m.Used(), m.usedBlocks);
  }

  method GiveRun(m: Manager, f: nat, n: nat, ghost l: Ledger)
    requires Matches(m, l) && Sound(l) && Owned(l, FreePages(f, n))
    modifies m`usedBlocks, m.bitmap
    ensures Matches(m, Step(l, FreePages(f, n)))
  {
    OwnedIsInMemory(m, l, FreePages(f, n));
    GiveSome(m, f, n);
    TakenBack(l, FreePages(f, n), m.Used(), m.usedBlocks);
  }

  method GiveSome(m: Manager, f: nat, n: nat)
    requires m.Valid() && Range(f, n) <= m.Used() && 0 !in Range(f, n)
    modifies m`usedBlocks, m.bitmap
    ensures m.Valid() && m.Used() == old(m.Used()) - Range(f, n) && m.usedBlocks == Counted(old(m.usedBlocks), -(n as int))
  {
    if n == 0 {
      NotCounted(m.usedBlocks);
      return;
    }
    RangeInMemory(f, n);
    assert f in Range(f, n);
    FrameAddress(f);
    m.FreePages(f * BLOCK_SIZE, n);
  }

  /** Any run of calls that gives back only held frames is a run of the ledger, up to the point where
      the kernel stops if it does: so no frame is handed out twice, none leaks, and the counter
      follows the bitmap. */
  method Serve(m: Manager, ops: seq<Op>, ghost l: Ledger) returns (halted: bool, done: nat)
    requires Matches(m, l) && Sound(l) && OwnedRun(l, ops)
    modifies m`usedBlocks, m.bitmap
    ensures done <= |ops| && (!halted ==> done == |ops|)
    ensures Matches(m, Run(l, ops[..done])) && Sound(Run(l, ops[..done]))
    ensures Drift(Run(l, ops[..done])) == Drift(l)
  {
    halted, done := false, 0;
    ghost var now := l;
    WholeSequence(ops);
    while done < |ops|
      invariant done <= |ops| && Matches(m, now) && Sound(now) && OwnedRun(now, ops[done..])
      invariant now == Run(l, ops[..done]) && Drift(now) == Drift(l)
    {
      ghost var next := Step(now, ops[done]);
      OneMore(l, now, ops, done);
      halted := Perform(m, ops[done], now);
      now, done := next, done + 1;
      if halted {
        return;
      }
    }
  }

  lemma {:induction false} OneMore(l: Ledger, now: Ledger, ops: seq<Op>, done: nat)
    requires done < |ops| && Sound(now) && OwnedRun(now, ops[done..]) && now == Run(l, ops[..done])
    ensures var next := Step(now, ops[done]);
            && Owned(now, ops[done]) && Sound(next) && OwnedRun(next, ops[done + 1..])
            && next == Run(l, ops[..done + 1]) && Drift(next) == Drift(now)
  {
    var op := ops[done];
    StepAlong(ops, done);
    FirstOwned(now, ops[done..]);
    StepSound(now, op);
    StepKeepsDrift(now, op);
    RunSnoc(l, ops[..done], op);
  }

  lemma {:induction false} FirstOwned(l: Ledger, ops: seq<Op>)
    requires ops != [] && OwnedRun(l, ops)
    ensures Owned(l, ops[0]) && OwnedRun(Step(l, ops[0]), ops[1..])
  {
  }

  lemma {:induction false} RunSnoc(l: Ledger, ops: seq<Op>, op: Op)
    ensures Run(l, ops + [op]) == Step(Run(l, ops), op)
    decreases |ops|
  {
    if ops == [] {
      assert ops + [op] == [op];
    } else {
      assert (ops + [op])[1..] == ops[1..] + [op];
      RunSnoc(Step(l, ops[0]), ops[1..], op);
    }
  }
}
