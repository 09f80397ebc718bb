/** The round-robin ring as a plain sequence, current process first.

    `Next`, `Exit` and `Add` say what one scheduler call does to that sequence.  The lemmas
    say what follows for whole runs: nobody is lost, who is picked, and how long anyone waits. */
module SchedSpec {

  /** One ring slot: a process and the scheduler rounds it still wants to sleep. */
  datatype Entry<P> = Entry(proc: P, ticks: nat)

  function Tick<P>(e: Entry<P>): Entry<P> {
    if e.ticks == 0 then e else e.(ticks := e.ticks - 1)
  }

  function TickAll<P>(s: seq<Entry<P>>): (r: seq<Entry<P>>)
    ensures |r| == |s|
    ensures forall i :: 0 <= i < |s| ==> r[i] == Tick(s[i])
  {
    seq(|s|, i requires 0 <= i < |s| => Tick(s[i]))
  }

  /** Index of the first awake entry at or after `k`; `|s|` when there is none. */
  function FirstAwake<P>(s: seq<Entry<P>>, k: nat): (r: nat)
    requires k <= |s|
    ensures k <= r <= |s|
    ensures forall i :: k <= i < r ==> s[i].ticks > 0
    ensures r < |s| ==> s[r].ticks == 0
    decreases |s| - k
  {
    if k == |s| || s[k].ticks == 0 then k else FirstAwake(s, k + 1)
  }

  /** One `sched_next`: the head of the result is the process that runs next. */
  function Next<P>(s: seq<Entry<P>>): seq<Entry<P>> {
    if s == [] then []
    else
      var k := FirstAwake(s, 1);
      if k < |s| then [s[k]] + TickAll(s[1..k]) + s[k + 1..] + [s[0]]
      else if s[0].ticks == 0 then [s[0]] + TickAll(s[1..])
      else TickAll(s[1..]) + [Tick(s[0])]
  }

  /** Removing slot `k` leaves its predecessor as the current slot. */
  function RemoveAt<T>(s: seq<T>, k: nat): seq<T>
    requires k < |s| && 1 < |s|
  {
    if k == 0 then [s[|s| - 1]] + s[1..|s| - 1]
    else [s[k - 1]] + s[k + 1..] + s[..k - 1]
  }

  /** A new process goes right behind the current one. */
  function Add<P>(s: seq<Entry<P>>, e: Entry<P>): seq<Entry<P>> {
    if s == [] then [e] else [s[0], e] + s[1..]
  }

  /** The current process leaves. */
  function ExitHead<P>(s: seq<Entry<P>>): seq<Entry<P>> {
    if |s| <= 1 then [] else RemoveAt(s, 0)
  }

  // ---- What one call of `Next` does ----

  function Procs<P>(s: seq<Entry<P>>): (r: seq<P>)
    ensures |r| == |s|
    ensures forall i :: 0 <= i < |s| ==> r[i] == s[i].proc
  {
    seq(|s|, i requires 0 <= i < |s| => s[i].proc)
  }

  /** The entry of index `i` before a call sits at this index after it. */
  function MovedTo<P>(s: seq<Entry<P>>, i: nat): (j: nat)
    requires i < |s|
  {
    var k := FirstAwake(s, 1);
    if k < |s| then
      if i == 0 then |s| - 1 else if i < k then i else if i == k then 0 else i - 1
    else if s[0].ticks == 0 then i
    else if i == 0 then |s| - 1 else i - 1
  }

  /** Every entry survives a call at its new index, and its sleep changes by one round exactly
      when the scan passed over it: it is asleep and no awake entry precedes it in ring order. */
  lemma {:induction false} NextMoves<P>(s: seq<Entry<P>>, i: nat)
    requires i < |s|
    ensures |Next(s)| == |s| && MovedTo(s, i) < |s|
    ensures Next(s)[MovedTo(s, i)].proc == s[i].proc
    ensures Next(s)[MovedTo(s, i)].ticks ==
            if s[i].ticks > 0 && (if i == 0 then FirstAwake(s, 1) == |s| else i < FirstAwake(s, 1))
            then s[i].ticks - 1 else s[i].ticks
  {
    var k := FirstAwake(s, 1);
    if k < |s| {
      RotatedAt(s, k, i);
    } else if i > 0 {
      assert s[1..][i - 1] == s[i];
    }
  }

  /** The four pieces of a ring whose entry `k` is selected. */
  lemma {:induction false} RotatedAt<P>(s: seq<Entry<P>>, k: nat, i: nat)
    requires 1 <= k < |s| && i < |s|
    ensures var r := [s[k]] + TickAll(s[1..k]) + s[k + 1..] + [s[0]];
            && |r| == |s|
            && r[if i == 0 then |s| - 1 else if i < k then i else if i == k then 0 else i - 1] ==
               if 0 < i < k then Tick(s[i]) else s[i]
  {
    var a, b, c := [s[k]], TickAll(s[1..k]), s[k + 1..];
    var r := a + b + c + [s[0]];
    if 0 < i < k {
      assert r[i] == b[i - 1] == Tick(s[1..k][i - 1]);
    } else if i > k {
      assert r[i - 1] == c[i - k - 1];
    }
  }

  lemma ProcsConcat<P>(a: seq<Entry<P>>, b: seq<Entry<P>>)
    ensures Procs(a + b) == Procs(a) + Procs(b)
  {
  }

  lemma ProcsTicked<P>(a: seq<Entry<P>>)
    ensures Procs(TickAll(a)) == Procs(a)
  {
  }

  /** Rotating a slice to the front and the head to the back permutes the processes. */
  lemma SwapConserves<P>(h: seq<Entry<P>>, a: seq<Entry<P>>, c: seq<Entry<P>>, b: seq<Entry<P>>)
    ensures multiset(Procs(c + TickAll(a) + b + h)) == multiset(Procs(h + a + c + b))
  {
    var t := TickAll(a);
    ProcsTicked(a);
    assert Procs(c + t + b + h) == Procs(c) + Procs(a) + Procs(b) + Procs(h) by {
      ProcsConcat(c + t + b, h); ProcsConcat(c + t, b); ProcsConcat(c, t);
    }
    assert Procs(h + a + c + b) == Procs(h) + Procs(a) + Procs(c) + Procs(b) by {
      ProcsConcat(h + a + c, b); ProcsConcat(h + a, c); ProcsConcat(h, a);
    }
  }

  lemma RotateConserves<P>(h: seq<Entry<P>>, a: seq<Entry<P>>)
    ensures multiset(Procs(TickAll(a) + TickAll(h))) == multiset(Procs(h + a))
    ensures Procs(h + TickAll(a)) == Procs(h + a)
  {
    ProcsTicked(a);
    ProcsTicked(h);
    ProcsConcat(h, a);
    ProcsConcat(TickAll(a), TickAll(h));
  }

  lemma {:induction false} NextConservesProcesses<P>(s: seq<Entry<P>>)
    ensures multiset(Procs(Next(s))) == multiset(Procs(s))
  {
    if s != [] {
      var k := FirstAwake(s, 1);
      if k < |s| {
        assert s == [s[0]] + s[1..k] + [s[k]] + s[k + 1..];
        SwapConserves([s[0]], s[1..k], [s[k]], s[k + 1..]);
      } else {
        assert s == [s[0]] + s[1..];
        assert TickAll([s[0]]) == [Tick(s[0])];
        RotateConserves([s[0]], s[1..]);
      }
    }
  }

  /** Nobody new shows up on the ring. */
  lemma {:induction false} NextOrigin<P>(s: seq<Entry<P>>, j: nat) returns (i: nat)
    requires j < |Next(s)|
    ensures i < |s| && Next(s)[j].proc == s[i].proc
  {
    NextConservesProcesses(s);
    var p := Procs(Next(s))[j];
    assert p in multiset(Procs(s));
    i :| 0 <= i < |s| && Procs(s)[i] == p;
  }

  /** An awake process runs whenever there is one, and it is the first awake one in ring order
      after the current process (the current process itself coming last). */
  lemma NextSelectsFirstAwake<P>(s: seq<Entry<P>>, i: nat)
    requires 0 < i <= |s| && s != []
    requires forall j :: 0 < j < i ==> s[j].ticks > 0
    requires s[if i < |s| then i else 0].ticks == 0
    ensures Next(s)[0] == s[if i < |s| then i else 0]
  {
    assert FirstAwake(s, 1) == i;
  }

  // ---- Exit, then Next ----

  /** Leaving and rescheduling picks the process that a plain reschedule would have picked,
      except in exactly one situation: the leaver was the only awake process. */
  lemma {:induction false} ExitThenNext<P>(s: seq<Entry<P>>)
    requires |s| >= 2
    requires forall i, j :: 0 <= i < j < |s| ==> s[i].proc != s[j].proc
    ensures Next(ExitHead(s))[0].proc == Next(s)[0].proc
            <==> !(s[0].ticks == 0 && forall i :: 0 < i < |s| ==> s[i].ticks > 0)
  {
    var n, e := |s|, ExitHead(s);
    assert |e| == n - 1 && e[0] == s[n - 1];
    assert forall i :: 0 < i < n - 1 ==> e[i] == s[i];
    NextHead(s);
    NextHead(e);
    WinnerAfterExit(s, e);
  }

  lemma {:induction false} WinnerAfterExit<P>(s: seq<Entry<P>>, e: seq<Entry<P>>)
    requires |s| >= 2 && |e| == |s| - 1 && e[0] == s[|s| - 1] && forall i :: 0 < i < |s| - 1 ==> e[i] == s[i]
    requires forall i, j :: 0 <= i < j < |s| ==> s[i].proc != s[j].proc
    ensures e[Winner(e)].proc == s[Winner(s)].proc <==> !(s[0].ticks == 0 && FirstAwake(s, 1) == |s|)
  {
    SameFirstAwake(s, e);
  }

  /** The index of the entry that runs next. */
  function Winner<P>(s: seq<Entry<P>>): (k: nat)
    requires s != []
    ensures k < |s|
  {
    var k := FirstAwake(s, 1);
    if k < |s| then k else if s[0].ticks == 0 || |s| == 1 then 0 else 1
  }

  lemma {:induction false} NextHead<P>(s: seq<Entry<P>>)
    requires s != []
    ensures |Next(s)| > 0 && Next(s)[0].proc == s[Winner(s)].proc
  {
    if FirstAwake(s, 1) == |s| && s[0].ticks > 0 && |s| > 1 {
      assert TickAll(s[1..])[0] == Tick(s[1..][0]) == Tick(s[1]);
    }
  }

  /** Without the head the scan stops at the same place, or at the predecessor that is now current. */
  lemma {:induction false} SameFirstAwake<P>(s: seq<Entry<P>>, e: seq<Entry<P>>)
    requires |s| >= 2 && |e| == |s| - 1 && forall i :: 0 < i < |s| - 1 ==> e[i] == s[i]
    ensures FirstAwake(e, 1) == if FirstAwake(s, 1) < |s| - 1 then FirstAwake(s, 1) else |s| - 1
  {
    var k, m := FirstAwake(s, 1), FirstAwake(e, 1);
    if k < |s| - 1 {
      assert e[k] == s[k];
    }
    if m < |e| {
      assert s[m] == e[m];
    }
  }

  /** The situation itself: the only awake process leaves, and another sleeper gets the turn than the
      one that would have been next. */
  lemma ExitPicksAnother()
    ensures var s := [Entry(1, 0), Entry(2, 1), Entry(3, 1)]; Next(ExitHead(s))[0].proc != Next(s)[0].proc
  {
    ExitThenNext([Entry(1, 0), Entry(2, 1), Entry(3, 1)]);
  }

  // ---- Bounded waiting over whole runs ----

  /** What can happen to the ring: a timer tick, the current process going to sleep or leaving
      (each of these ends in one `sched_next`), or a new process arriving. */
  datatype Event<P> = Timer | Sleep(ticks: nat) | Leave | Arrive(entry: Entry<P>)

  function Step<P>(s: seq<Entry<P>>, ev: Event<P>): seq<Entry<P>> {
    match ev
    case Timer => Next(s)
    case Sleep(t) => if s == [] then [] else Next(s[0 := s[0].(ticks := t)])
    case Leave => Next(ExitHead(s))
    case Arrive(e) => Add(s, e)
  }

  function Run<P>(s: seq<Entry<P>>, evs: seq<Event<P>>): seq<Entry<P>>
    decreases |evs|
  {
    if evs == [] then s else Run(Step(s, evs[0]), evs[1..])
  }

  lemma {:induction false} RunSnoc<P>(s: seq<Entry<P>>, evs: seq<Event<P>>, ev: Event<P>)
    ensures Run(s, evs + [ev]) == Step(Run(s, evs), ev)
    decreases |evs|
  {
    if evs == [] {
      assert evs + [ev] == [ev];
    } else {
      assert (evs + [ev])[1..] == evs[1..] + [ev];
      RunSnoc(Step(s, evs[0]), evs[1..], ev);
    }
  }

  function Arrivals<P>(evs: seq<Event<P>>): nat {
    if evs == [] then 0 else (if evs[0].Arrive? then 1 else 0) + Arrivals(evs[1..])
  }

  /** It is the number of processes that arrive: these are the numbers of their events. */
  lemma {:induction false} ArrivalsIs<P>(evs: seq<Event<P>>) returns (at: seq<nat>)
    ensures |at| == Arrivals(evs)
    ensures forall i, j :: 0 <= i < j < |at| ==> at[i] < at[j]
    ensures forall k: nat :: k in at <==> k < |evs| && evs[k].Arrive?
  {
    if evs == [] {
      return [];
    }
    var rest := ArrivalsIs(evs[1..]);
    at := (if evs[0].Arrive? then [0] else []) + Later(rest);
    forall k: nat ensures k in at <==> k < |evs| && evs[k].Arrive? {
      LaterHas(rest, k);
      assert 0 < k < |evs| ==> evs[1..][k - 1] == evs[k];
    }
  }

  function Later(at: seq<nat>): seq<nat> { seq(|at|, i requires 0 <= i < |at| => at[i] + 1) }

  lemma LaterHas(at: seq<nat>, k: nat)
    ensures k in Later(at) <==> k > 0 && k - 1 in at
  {
    if k > 0 && k - 1 in at {
      var i :| 0 <= i < |at| && at[i] == k - 1;
      assert Later(at)[i] == k;
    }
  }

  /** Some `sched_next` during the run made `q` the current process. */
  ghost predicate Selected<P>(s: seq<Entry<P>>, evs: seq<Event<P>>, q: P) {
    exists k :: 0 < k <= |evs| && !evs[k - 1].Arrive? && HeadIs(Run(s, evs[..k]), q)
  }

  ghost predicate HeadIs<P>(s: seq<Entry<P>>, q: P) {
    s != [] && s[0].proc == q
  }

  /** Every rescheduling brings a waiting process strictly closer, measured in
      ring index plus sleep ticks, or selects it. */
  lemma {:induction false} NextProgress<P>(s: seq<Entry<P>>, i: nat) returns (j: nat)
    requires 0 < i < |s|
    ensures |Next(s)| == |s| && j < |s| && Next(s)[j].proc == s[i].proc
    ensures j == 0 || j + Next(s)[j].ticks < i + s[i].ticks
  {
    NextMoves(s, i);
    j := MovedTo(s, i);
  }

  lemma {:induction false} StepProgress<P>(s: seq<Entry<P>>, ev: Event<P>, i: nat) returns (j: nat)
    requires 0 < i < |s| && !ev.Arrive?
    ensures j < |Step(s, ev)| && Step(s, ev)[j].proc == s[i].proc
    ensures j == 0 || j + Step(s, ev)[j].ticks < i + s[i].ticks
  {
    match ev
    case Timer => j := NextProgress(s, i);
    case Sleep(t) => j := NextProgress(s[0 := s[0].(ticks := t)], i);
    case Leave =>
      var e := ExitHead(s);
      if i < |s| - 1 {
        assert e[i] == s[i];
        j := NextProgress(e, i);
      } else {
        // The last process of the ring has become current without having been selected.
        assert e[0] == s[i];
        NextMoves(e, 0);
        j := MovedTo(e, 0);
      }
    case Arrive(_) =>
  }

  lemma {:induction false} SelectedLater<P>(s: seq<Entry<P>>, evs: seq<Event<P>>, q: P)
    requires evs != [] && Selected(Step(s, evs[0]), evs[1..], q)
    ensures Selected(s, evs, q)
  {
    var s1, rest := Step(s, evs[0]), evs[1..];
    var k :| 0 < k <= |rest| && !rest[k - 1].Arrive? && HeadIs(Run(s1, rest[..k]), q);
    assert evs[..k + 1][1..] == rest[..k];
    assert !evs[k + 1 - 1].Arrive? && HeadIs(Run(s, evs[..k + 1]), q);
  }

  /** Bounded waiting: whatever the current processes do, a process at ring index `i` with `t`
      ticks of sleep is selected before `i + t` plus the number of arrivals reschedulings pass. */
  lemma {:induction false} BoundedWaiting<P>(s: seq<Entry<P>>, evs: seq<Event<P>>, i: nat)
    requires 0 < i < |s|
    requires |evs| - Arrivals(evs) >= i + s[i].ticks + Arrivals(evs)
    ensures Selected(s, evs, s[i].proc)
    decreases |evs|
  {
    var q := s[i].proc;
    if evs == [] {
    } else {
      var s1 := Step(s, evs[0]);
      if evs[0].Arrive? {
        assert s1[i + 1] == s[i];
        BoundedWaiting(s1, evs[1..], i + 1);
        SelectedLater(s, evs, q);
      } else {
        var j := StepProgress(s, evs[0], i);
        if j == 0 {
          assert evs[..1] == [evs[0]] && evs[..1][1..] == [];
          assert Run(s, evs[..1]) == s1;
          assert !evs[1 - 1].Arrive? && HeadIs(Run(s, evs[..1]), q);
        } else {
          BoundedWaiting(s1, evs[1..], j);
          SelectedLater(s, evs, q);
        }
      }
    }
  }
}
