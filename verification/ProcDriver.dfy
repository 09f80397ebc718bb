/** The kernel calls that drive the scheduler: timer tick, sleep, exit and process creation.
    Each of them is one event of `SchedSpec.Step` on the ring, so the bounded-waiting theorem
    speaks about every run of these calls in which no process structure gets corrupted. */
module ProcDriver {
  import opened Arithmetic
  import opened SchedSpec
  import opened SchedRobin

  const TIMER_FREQ := 100

  /** Milliseconds to scheduler rounds, in 32-bit arithmetic. */
  function SleepTicks(ms: nat): (t: nat)
    requires ms < TWO32
    ensures t == 0 <==> ms == 0
  {
    if ms == 0 then 0
    else
      var t := Word32(ms * TIMER_FREQ + 999) / 1000;
      if t == 0 then 1 else t
  }

  /** The ticks are the milliseconds rounded up to timer periods exactly when the sum does not wrap
      around, that is for sleeps of less than 42949663 ms, about twelve hours. */
  lemma SleepTicksIff(ms: nat)
    requires ms < TWO32
    ensures 1000 * SleepTicks(ms) - 1000 < ms * TIMER_FREQ <= 1000 * SleepTicks(ms) <==> ms < 42949663
  {
    if ms * TIMER_FREQ + 999 < TWO32 {
      SmallMod(ms * TIMER_FREQ + 999);
    }
  }

  class Scheduler {
    const ring: RoundRobin
    var current: Process?

    ghost predicate Valid()
      reads this, ring, ring.repr, ProcessesOf(ring.nodes)
    {
      && ring.Valid()
      && AllHealthy(ring.nodes)
      && (current != null ==> ring.nodes != [] && current == ring.nodes[0].process)
    }

    ghost function View(): seq<Entry<Process?>>
      requires Valid()
      reads this, ring, ring.repr, ProcessesOf(ring.nodes)
    {
      Entries(ring.nodes)
    }

    constructor ()
      ensures Valid() && View() == []
    {
      ring := new RoundRobin();
      current := null;
    }

    /** `proc_schedule` on a healthy ring. */
    method Schedule()
      requires ring.Valid() && AllHealthy(ring.nodes)
      modifies this`current, ring`nodes, ring`processes, ring.repr, ProcessesOf(ring.nodes)`sleepTicks
      ensures Valid() && View() == Next(old(Entries(ring.nodes))) && (current == null <==> View() == [])
    {
      current := ring.Elect();
    }

    /** The timer interrupt. */
    method TimerTick()
      requires Valid()
      modifies this`current, ring`nodes, ring`processes, ring.repr, ProcessesOf(ring.nodes)`sleepTicks
      ensures Valid() && View() == Step(old(View()), Timer) && (current == null <==> View() == [])
    {
      Schedule();
    }

    /** `proc_sleep`: does nothing when no process runs. */
    method Sleep(ms: nat)
      requires Valid() && ms < TWO32
      modifies this`current, ring`nodes, ring`processes, ring.repr, ProcessesOf(ring.nodes)`sleepTicks
      ensures Valid()
      ensures View() == if old(current) == null then old(View())
                        else Step(old(View()), Event.Sleep(SleepTicks(ms)))
      ensures current == null <==> old(current) == null || View() == []
    {
      if current == null {
        return;
      }
      CountDown(SleepTicks(ms));
      Schedule();
    }

    /** Sets the sleep counter of the running process. */
    method CountDown(t: nat)
      requires Valid() && current != null
      modifies current`sleepTicks
      ensures Valid() && View() == old(View()[0 := View()[0].(ticks := t)])
    {
      ghost var s := View();
      current.sleepTicks := t;
      assert View() == s[0 := s[0].(ticks := t)];
    }

    /** `proc_exit`: the running process leaves the ring for good. */
    method Exit()
      requires Valid() && current != null
      modifies this`current, ring`nodes, ring`processes, ring.repr, ProcessesOf(ring.nodes)`sleepTicks
      ensures Valid() && View() == Step(old(View()), Leave) && (current == null <==> View() == [])
    {
      ring.LeaveHead();
      Schedule();
    }

    /** The last step of process creation. */
    method Spawn(p: Process)
      requires Valid() && ProcValid(p)
      requires forall i :: 0 <= i < |ring.nodes| ==> ring.nodes[i].process != p
      modifies ring, ring.repr
      ensures Valid() && fresh(ring.repr - old(ring.repr))
      ensures View() == Step(old(View()), Arrive(Entry(p, p.sleepTicks)))
    {
      ring.Enter(p);
    }

    /** `proc_enter_usermode`: the first process starts to run. */
    method EnterUsermode() returns (ok: bool)
      requires Valid()
      modifies this`current, ring`nodes, ring`processes, ring.repr
      ensures Valid() && View() == old(View())
      ensures ok <==> View() != []
      ensures ok ==> current != null
    {
      current := ring.CurrentHealthy();
      ok := current != null;
    }
  }
}
