/** Runs of the calls that drive the scheduler. */
module ProcRuns {
  import opened Arithmetic
  import opened SchedSpec
  import opened SchedRobin
  import opened ProcDriver

  /** A timer interrupt, what the running process asks for, or the creation of a process. */
  datatype Call = TickCall | SleepCall(ms: nat) | ExitCall | SpawnCall(pid: nat, directory: nat, stack: nat)

  /** Calls as the kernel makes them: a new process has a directory and a stack. */
  predicate CallOk(c: Call) {
    match c
    case SleepCall(ms) => ms < TWO32
    case SpawnCall(_, directory, stack) => directory != 0 && stack != 0
    case _ => true
  }

  /** The event a call is. */
  ghost predicate Is(c: Call, ev: Event<Process?>) {
    match c
    case TickCall => ev == Timer
    case SleepCall(ms) => ms < TWO32 && ev == Event.Sleep(SleepTicks(ms))
    case ExitCall => ev == Leave
    case SpawnCall(_, _, _) => ev.Arrive? && ev.entry.ticks == 0
  }

  ghost function ProcsOf(s: seq<Entry<Process?>>): set<Process?> {
    set i | 0 <= i < |s| :: s[i].proc
  }

  lemma {:induction false} ProcsOfNext(s: seq<Entry<Process?>>)
    ensures ProcsOf(Next(s)) <= ProcsOf(s)
  {
    forall p | p in ProcsOf(Next(s)) ensures p in ProcsOf(s) {
      var j :| 0 <= j < |Next(s)| && Next(s)[j].proc == p;
      var i := NextOrigin(s, j);
    }
  }

  /** No process shows up on the ring but one that arrives. */
  lemma {:induction false} ProcsOfStep(s: seq<Entry<Process?>>, ev: Event<Process?>)
    ensures ProcsOf(Step(s, ev)) <= ProcsOf(s) + if ev.Arrive? then {ev.entry.proc} else {}
  {
    match ev
    case Timer => ProcsOfNext(s);
    case Sleep(t) =>
      if s != [] {
        var u := s[0 := s[0].(ticks := t)];
        ProcsOfNext(u);
        assert forall i :: 0 <= i < |s| ==> u[i].proc == s[i].proc;
      }
    case Leave =>
      ProcsOfNext(ExitHead(s));
      LeftProcs(s);
    case Arrive(_) =>
  }

  lemma {:induction false} LeftProcs(s: seq<Entry<Process?>>)
    ensures ProcsOf(ExitHead(s)) <= ProcsOf(s)
  {
  }

  lemma {:induction false} ProcsOfNodes(ns: seq<Node>)
    requires NonNull(ns)
    ensures ProcessesOf(ns) == ProcsOf(Entries(ns))
  {
    forall p: Process ensures p in ProcessesOf(ns) <==> p in ProcsOf(Entries(ns)) {
      if p in ProcessesOf(ns) {
        var i :| 0 <= i < |ns| && ns[i].process == p;
        assert Entries(ns)[i].proc == p;
      }
    }
  }

  /** One call: an event on the ring.  The running process exists unless the last one has left. */
  method Perform(sc: Scheduler, c: Call) returns (ghost ev: Event<Process?>)
    requires sc.Valid() && sc.current != null && CallOk(c)
    modifies sc, sc.ring, sc.ring.repr, ProcessesOf(sc.ring.nodes)
    ensures sc.Valid() && Is(c, ev) && sc.View() == Step(old(sc.View()), ev)
    ensures ev.Arrive? ==> sc.current == old(sc.current) && fresh(ev.entry.proc)
    ensures !ev.Arrive? ==> (sc.current == null <==> sc.View() == [])
    ensures fresh(sc.ring.repr - old(sc.ring.repr))
    ensures fresh(ProcessesOf(sc.ring.nodes) - old(ProcessesOf(sc.ring.nodes)))
  {
    ghost var s := sc.View();
    ProcsOfNodes(sc.ring.nodes);
    ev := Dispatch(sc, c);
    ProcsOfNodes(sc.ring.nodes);
    ProcsOfStep(s, ev);
  }

  method Dispatch(sc: Scheduler, c: Call) returns (ghost ev: Event<Process?>)
    requires sc.Valid() && sc.current != null && CallOk(c)
    modifies sc, sc.ring, sc.ring.repr, ProcessesOf(sc.ring.nodes)
    ensures sc.Valid() && Is(c, ev) && sc.View() == Step(old(sc.View()), ev)
    ensures ev.Arrive? ==> sc.current == old(sc.current) && fresh(ev.entry.proc)
    ensures !ev.Arrive? ==> (sc.current == null <==> sc.View() == [])
    ensures fresh(sc.ring.repr - old(sc.ring.repr))
  {
    match c
    case TickCall =>
      sc.TimerTick();
      ev := Timer;
    case SleepCall(ms) =>
      sc.Sleep(ms);
      ev := Event.Sleep(SleepTicks(ms));
    case ExitCall =>
      sc.Exit();
      ev := Leave;
    case SpawnCall(pid, directory, stack) =>
      var p := new Process(pid, directory, stack);
      sc.Spawn(p);
      ev := Arrive(Entry(p, 0));
  }

  /** Who runs after each call so far: the head of the ring after every rescheduling. */
  ghost predicate Followed(s: seq<Entry<Process?>>, evs: seq<Event<Process?>>, ran: seq<Process?>) {
    && |ran| == |evs|
    && forall k :: 0 <= k < |evs| && !evs[k].Arrive? ==> RanAt(s, evs, ran, k)
  }

  ghost predicate RanAt(s: seq<Entry<Process?>>, evs: seq<Event<Process?>>, ran: seq<Process?>, k: nat)
    requires k < |evs| && k < |ran|
  {
    var r := Run(s, evs[..k + 1]);
    r == [] || ran[k] == r[0].proc
  }

  lemma {:induction false} FollowedOn(s: seq<Entry<Process?>>, evs: seq<Event<Process?>>, ran: seq<Process?>,
                                      ev: Event<Process?>, q: Process?)
    requires Followed(s, evs, ran)
    requires var r := Step(Run(s, evs), ev); ev.Arrive? || r == [] || q == r[0].proc
    ensures Run(s, evs + [ev]) == Step(Run(s, evs), ev) && Followed(s, evs + [ev], ran + [q])
  {
    RunSnoc(s, evs, ev);
    var more, who := evs + [ev], ran + [q];
    forall k | 0 <= k < |more| && !more[k].Arrive? ensures RanAt(s, more, who, k) {
      if k < |evs| {
        assert RanAt(s, evs, ran, k);
        assert more[..k + 1] == evs[..k + 1];
      } else {
        assert more[..k + 1] == more;
      }
    }
  }

  /** A process selected by the events is among those that ran. */
  lemma {:induction false} SelectedRan(s: seq<Entry<Process?>>, evs: seq<Event<Process?>>, ran: seq<Process?>, q: Process?)
    requires Followed(s, evs, ran) && Selected(s, evs, q)
    ensures q in ran
  {
    var k :| 0 < k <= |evs| && !evs[k - 1].Arrive? && HeadIs(Run(s, evs[..k]), q);
    assert RanAt(s, evs, ran, k - 1);
    assert evs[..k - 1 + 1] == evs[..k];
  }

  /** Every waiting process with less to wait than the run is long has run. */
  ghost predicate NobodyStarves(s: seq<Entry<Process?>>, evs: seq<Event<Process?>>, ran: seq<Process?>) {
    forall i :: 0 < i < |s| && |evs| - Arrivals(evs) >= i + s[i].ticks + Arrivals(evs) ==> s[i].proc in ran
  }

  lemma {:induction false} BoundedWaitingOfCalls(s: seq<Entry<Process?>>, evs: seq<Event<Process?>>, ran: seq<Process?>)
    requires Followed(s, evs, ran)
    ensures NobodyStarves(s, evs, ran)
  {
    forall i | 0 < i < |s| && |evs| - Arrivals(evs) >= i + s[i].ticks + Arrivals(evs) ensures s[i].proc in ran {
      BoundedWaiting(s, evs, i);
      SelectedRan(s, evs, ran, s[i].proc);
    }
  }

  /** The events are those of the first calls. */
  ghost predicate Events(calls: seq<Call>, evs: seq<Event<Process?>>) {
    |evs| <= |calls| && forall k :: 0 <= k < |evs| ==> Is(calls[k], evs[k])
  }

  lemma {:induction false} EventsOn(calls: seq<Call>, evs: seq<Event<Process?>>, ev: Event<Process?>)
    requires Events(calls, evs) && |evs| < |calls| && Is(calls[|evs|], ev)
    ensures Events(calls, evs + [ev])
  {
  }

  predicate AllOk(calls: seq<Call>) { forall i :: 0 <= i < |calls| ==> CallOk(calls[i]) }

  /** What a run of calls from the ring `s` has done so far. */
  ghost predicate Done(sc: Scheduler, calls: seq<Call>, s: seq<Entry<Process?>>, evs: seq<Event<Process?>>, ran: seq<Process?>)
    requires sc.Valid()
    reads sc, sc.ring, sc.ring.repr, ProcessesOf(sc.ring.nodes)
  {
    Events(calls, evs) && sc.View() == Run(s, evs) && Followed(s, evs, ran)
  }

  /** The next call of the run. */
  method Turn(sc: Scheduler, calls: seq<Call>, ghost s: seq<Entry<Process?>>, ran: seq<Process?>, ghost evs: seq<Event<Process?>>)
    returns (ran': seq<Process?>, ghost evs': seq<Event<Process?>>)
    requires sc.Valid() && sc.current != null && AllOk(calls) && Done(sc, calls, s, evs, ran) && |ran| < |calls|
    modifies sc, sc.ring, sc.ring.repr, ProcessesOf(sc.ring.nodes)
    ensures sc.Valid() && Done(sc, calls, s, evs', ran') && |ran'| == |ran| + 1
    ensures sc.current == null ==> sc.View() == []
    ensures fresh(sc.ring.repr - old(sc.ring.repr))
    ensures fresh(ProcessesOf(sc.ring.nodes) - old(ProcessesOf(sc.ring.nodes)))
  {
    ghost var ev;
    ev := Perform(sc, calls[|ran|]);
    EventsOn(calls, evs, ev);
    FollowedOn(s, evs, ran, ev, sc.current);
    evs', ran' := evs + [ev], ran + [sc.current];
  }

  /** Any sequence of calls, up to the point where the last process leaves if it does: the ring follows
      the events, `ran` lists who runs after each call, and a process at ring index `i` with `t` ticks to
      sleep is in it once `i + t` and the number of arrivals reschedulings have passed. */
  method Serve(sc: Scheduler, calls: seq<Call>)
    returns (halted: bool, ran: seq<Process?>, ghost evs: seq<Event<Process?>>)
    requires sc.Valid() && sc.current != null && AllOk(calls)
    modifies sc, sc.ring, sc.ring.repr, ProcessesOf(sc.ring.nodes)
    ensures sc.Valid() && Done(sc, calls, old(sc.View()), evs, ran) && NobodyStarves(old(sc.View()), evs, ran)
    ensures if halted then sc.View() == [] else |ran| == |calls| && sc.current != null
  {
    ghost var s := sc.View();
    halted, ran, evs := false, [], [];
    while |ran| < |calls| && !halted
      invariant sc.Valid() && Done(sc, calls, s, evs, ran) && |ran| <= |calls|
      invariant if halted then sc.View() == [] else sc.current != null
      invariant fresh(sc.ring.repr - old(sc.ring.repr))
      invariant fresh(ProcessesOf(sc.ring.nodes) - old(ProcessesOf(sc.ring.nodes)))
      decreases |calls| - |ran|
    {
      ran, evs := Turn(sc, calls, s, ran, evs);
      halted := sc.current == null;
    }
    BoundedWaitingOfCalls(s, evs, ran);
  }
}
