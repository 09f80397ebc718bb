/** The pointer ring of the round-robin scheduler, refined to the sequences of `SchedSpec`. */
module SchedRobin {
  import opened SS = SchedSpec

  const PROC_MAGIC := 0xC0FEBABE

  class Process {
    var directory: nat
    var savedKernelStack: nat
    var magic: nat
    var magic2: nat
    var sleepTicks: nat
    const pid: nat

    constructor (pid: nat, directory: nat, stack: nat)
      ensures this.pid == pid && this.directory == directory && savedKernelStack == stack
      ensures magic == PROC_MAGIC && magic2 == PROC_MAGIC && sleepTicks == 0
    {
      this.pid, this.directory, savedKernelStack := pid, directory, stack;
      magic, magic2, sleepTicks := PROC_MAGIC, PROC_MAGIC, 0;
    }
  }

  predicate ProcValid(p: Process?)
    reads p
  {
    p != null && p.directory != 0 && p.savedKernelStack != 0 && p.magic == PROC_MAGIC && p.magic2 == PROC_MAGIC
  }

  class Node {
    const process: Process?
    var next: Node

    constructor (process: Process?)
      ensures this.process == process && next == this
    {
      this.process := process;
      next := this;
    }
  }

  ghost function ProcessesOf(ns: seq<Node>): set<Process> {
    set n | n in ns && n.process != null :: n.process as Process
  }

  /** The nodes of `ns` whose process passes the validity test. */
  ghost function Healthy(ns: seq<Node>): set<Node>
    reads ProcessesOf(ns)
  {
    set n | n in ns && ProcValid(n.process)
  }

  /** The subsequence of `ns` made of the nodes in `ok`. */
  ghost function Keep(ns: seq<Node>, ok: set<Node>): seq<Node> {
    if ns == [] then [] else (if ns[0] in ok then [ns[0]] else []) + Keep(ns[1..], ok)
  }

  lemma {:induction false} KeepConcat(a: seq<Node>, b: seq<Node>, ok: set<Node>)
    ensures Keep(a + b, ok) == Keep(a, ok) + Keep(b, ok)
  {
    if a == [] {
      assert a + b == b;
    } else {
      assert (a + b)[1..] == a[1..] + b;
      KeepConcat(a[1..], b, ok);
      var x := if a[0] in ok then [a[0]] else [];
      assert Keep(a + b, ok) == x + (Keep(a[1..], ok) + Keep(b, ok));
      assert Keep(a, ok) == x + Keep(a[1..], ok);
    }
  }

  lemma {:induction false} KeepSkip(a: seq<Node>, n: Node, b: seq<Node>, ok: set<Node>)
    requires n !in ok
    ensures Keep(a + [n] + b, ok) == Keep(a + b, ok)
  {
    KeepConcat(a + [n], b, ok);
    KeepConcat(a, [n], ok);
    KeepConcat(a, b, ok);
  }

  lemma {:induction false} KeepDistinct(a: seq<Node>, ok: set<Node>, p: Process?)
    requires forall i :: 0 <= i < |a| ==> a[i].process != p
    ensures forall i :: 0 <= i < |Keep(a, ok)| ==> Keep(a, ok)[i].process != p
  {
    if a != [] {
      KeepDistinct(a[1..], ok, p);
    }
  }

  lemma {:induction false} KeepSubset(a: seq<Node>, ok: set<Node>)
    ensures forall n :: n in Keep(a, ok) ==> n in a && n in ok
  {
    if a != [] {
      KeepSubset(a[1..], ok);
    }
  }

  lemma {:induction false} KeepAll(a: seq<Node>, ok: set<Node>)
    requires forall i :: 0 <= i < |a| ==> a[i] in ok
    ensures Keep(a, ok) == a
  {
    if a != [] {
      KeepAll(a[1..], ok);
    }
  }

  ghost predicate AllHealthy(ns: seq<Node>)
    reads ProcessesOf(ns)
  {
    forall i :: 0 <= i < |ns| ==> ProcValid(ns[i].process)
  }

  ghost predicate HealthyIs(ns: seq<Node>, ok: set<Node>)
    reads ProcessesOf(ns)
  {
    forall i :: 0 <= i < |ns| ==> (ns[i] in ok <==> ProcValid(ns[i].process))
  }

  /** The list without the node behind node `i`, which is not in `ok`. */
  lemma {:induction false} DroppedAt(ns: seq<Node>, i: nat, ok: set<Node>)
    requires i + 1 < |ns| && ns[i + 1] !in ok && HealthyIs(ns, ok)
    ensures var r := ns[..i + 1] + ns[i + 2..];
            |r| == |ns| - 1 && r[..i + 1] == ns[..i + 1] && Keep(r, ok) == Keep(ns, ok) && HealthyIs(r, ok)
  {
    var a, b, n := ns[..i + 1], ns[i + 2..], ns[i + 1];
    assert ns == a + [n] + b;
    KeepSkip(a, n, b, ok);
    HealthyShrinks(a, n, b, ok);
  }

  ghost predicate AllIn(ns: seq<Node>, ok: set<Node>) {
    forall i :: 0 <= i < |ns| ==> ns[i] in ok
  }

  lemma AllInSnoc(ns: seq<Node>, i: nat, ok: set<Node>)
    requires i < |ns| && AllIn(ns[..i], ok) && ns[i] in ok
    ensures AllIn(ns[..i + 1], ok)
  {
    assert ns[..i + 1] == ns[..i] + [ns[i]];
  }

  lemma HealthyShrinks(a: seq<Node>, n: Node, b: seq<Node>, ok: set<Node>)
    requires HealthyIs(a + [n] + b, ok)
    ensures HealthyIs(a + b, ok)
  {
    var big, small := a + [n] + b, a + b;
    forall i | 0 <= i < |small| ensures small[i] in ok <==> ProcValid(small[i].process) {
      assert small[i] == big[if i < |a| then i else i + 1];
    }
  }

  /** What the scheduler sees of a list of nodes. */
  ghost function Entries(ns: seq<Node>): (r: seq<Entry<Process?>>)
    requires NonNull(ns)
    reads ProcessesOf(ns)
    ensures |r| == |ns|
    ensures forall i :: 0 <= i < |ns| ==> r[i] == Entry(ns[i].process, ns[i].process.sleepTicks)
  {
    seq(|ns|, i requires 0 <= i < |ns| reads ProcessesOf(ns) => Entry(ns[i].process, ns[i].process.sleepTicks))
  }

  ghost predicate NonNull(ns: seq<Node>) {
    forall i :: 0 <= i < |ns| ==> ns[i].process != null
  }

  lemma {:induction false} KeptNonNull(ns: seq<Node>)
    ensures NonNull(Keep(ns, Healthy(ns))) && ProcessesOf(Keep(ns, Healthy(ns))) <= ProcessesOf(ns)
  {
    var ok := Healthy(ns);
    var kept := Keep(ns, ok);
    KeepSubset(ns, ok);
    forall i | 0 <= i < |kept| ensures kept[i].process != null {
      assert kept[i] in ok;
    }
  }

  /** `e` is `s` after a walk over the slots 1 to `i`, all asleep, that stopped in front of an
      awake slot (`found`), or that came all the way round and charged the current one too. */
  ghost predicate Scanned<P>(s: seq<Entry<P>>, e: seq<Entry<P>>, i: nat, found: bool) {
    if found then Walked(s, e, i) && s[if i + 1 < |s| then i + 1 else 0].ticks == 0
    else
      && |s| == |e| == i + 1
      && Walked(s, e[0 := s[0]], i)
      && s[0].ticks > 0 && e[0] == Tick(s[0])
  }

  ghost predicate Walked<P>(s: seq<Entry<P>>, e: seq<Entry<P>>, i: nat) {
    && i < |s| == |e|
    && e[0] == s[0]
    && (forall j :: 0 < j <= i ==> s[j].ticks > 0 && e[j] == Tick(s[j]))
    && (forall j :: i < j < |s| ==> e[j] == s[j])
  }

  lemma WalkedFound<P>(s: seq<Entry<P>>, e: seq<Entry<P>>, i: nat)
    requires Walked(s, e, i) && e[if i + 1 < |e| then i + 1 else 0].ticks == 0
    ensures Scanned(s, e, i, true)
  {
  }

  lemma WalkedOn<P>(s: seq<Entry<P>>, e: seq<Entry<P>>, i: nat)
    requires Walked(s, e, i) && e[if i + 1 < |e| then i + 1 else 0].ticks > 0
    ensures i + 1 < |e| ==> Walked(s, e[i + 1 := Tick(e[i + 1])], i + 1)
    ensures i + 1 == |e| ==> Scanned(s, e[0 := Tick(e[0])], i, false)
  {
    if i + 1 == |e| {
      assert e[0 := Tick(e[0])][0 := s[0]] == e;
    }
  }

  /** Slot `i + 1` moved to the front and the old front to the back, or a plain rotation. */
  ghost function Rotated<T>(s: seq<T>, found: bool, i: nat): (r: seq<T>)
    requires if found then i + 1 < |s| else s != []
    ensures |r| == |s|
  {
    if found then [s[i + 1]] + s[1..i + 1] + s[i + 2..] + [s[0]] else s[1..] + [s[0]]
  }

  lemma RotatedEntries(ns: seq<Node>, found: bool, i: nat)
    requires NonNull(ns) && if found then i + 1 < |ns| else ns != []
    ensures NonNull(Rotated(ns, found, i))
    ensures Entries(Rotated(ns, found, i)) == Rotated(Entries(ns), found, i)
  {
    var r := Rotated(ns, found, i);
    forall j | 0 <= j < |ns|
      ensures r[j] == ns[if !found then if j + 1 < |ns| then j + 1 else 0
                         else if j == 0 then i + 1 else if j <= i then j
                         else if j + 1 < |ns| then j + 1 else 0]
    {
    }
  }

  lemma ScannedIsNext<P>(s: seq<Entry<P>>, e: seq<Entry<P>>, i: nat, found: bool)
    requires Scanned(s, e, i, found)
    ensures Next(s) == if found && i + 1 == |s| then e else Rotated(e, found, i)
  {
    var k := FirstAwake(s, 1);
    assert k == if found then i + 1 else |s|;
    assert e[1..i + 1] == TickAll(s[1..i + 1]);
    if found && k < |s| {
      assert e[k + 1..] == s[k + 1..];
    } else if found {
      assert e == [e[0]] + e[1..];
    }
  }

  /** Removing the slot behind `i` is turning the ring to `i` and dropping its second slot. */
  lemma TurnedRemoval<T>(s: seq<T>, i: nat)
    requires i < |s| && 1 < |s|
    ensures var t := s[i..] + s[..i];
            t[..1] + t[2..] == RemoveAt(s, if i + 1 < |s| then i + 1 else 0)
  {
    var t := s[i..] + s[..i];
    if i + 1 < |s| {
      assert t[2..] == s[i + 2..] + s[..i];
    } else {
      assert t[2..] == s[1..|s| - 1];
    }
  }

  ghost predicate Distinct(ns: seq<Node>) {
    && (forall i, j :: 0 <= i < j < |ns| ==> ns[i] != ns[j])
    && (forall i, j :: 0 <= i < j < |ns| && ns[i].process != null ==> ns[i].process != ns[j].process)
  }

  /** Slot `i + 1` moved right behind the head. */
  ghost function Reordered<T>(s: seq<T>, i: nat): (r: seq<T>)
    requires 0 < i && i + 1 < |s|
    ensures |r| == |s| && r[0] == s[0] && r[1] == s[i + 1]
    ensures forall j :: 2 <= j < i + 2 ==> r[j] == s[j - 1]
    ensures forall j :: i + 2 <= j < |s| ==> r[j] == s[j]
  {
    [s[0], s[i + 1]] + s[1..i + 1] + s[i + 2..]
  }

  lemma DistinctReordered(ns: seq<Node>, i: nat)
    requires Distinct(ns) && 0 < i && i + 1 < |ns|
    ensures Distinct(Reordered(ns, i))
  {
    var r := Reordered(ns, i);
    forall j | 0 <= j < |ns|
      ensures r[j] == ns[if j == 0 then 0 else if j == 1 then i + 1 else if j < i + 2 then j - 1 else j]
    {
    }
  }

  ghost predicate Linked(ns: seq<Node>)
    reads ns
  {
    && (forall i {:trigger ns[i].next} :: 0 <= i < |ns| - 1 ==> ns[i].next == ns[i + 1])
    && (ns != [] ==> ns[|ns| - 1].next == ns[0])
  }

  ghost function BehindHead<T>(s: seq<T>, x: T): seq<T> {
    if s == [] then [x] else [s[0], x] + s[1..]
  }

  /** Rescheduling brings no new process onto the ring. */
  lemma StillHealthy(ns: seq<Node>, s: seq<Entry<Process?>>, ms: seq<Node>)
    requires AllHealthy(ns) && NonNull(ms) && Entries(ms) == Next(s)
    requires |s| == |ns| && forall i :: 0 <= i < |ns| ==> s[i].proc == ns[i].process
    ensures AllHealthy(ms)
  {
    forall j | 0 <= j < |ms| ensures ProcValid(ms[j].process) {
      var i := NextOrigin(s, j);
      assert ms[j].process == Entries(ms)[j].proc == ns[i].process;
    }
  }

  /** A ring with one more healthy node behind the head. */
  lemma InsertedHealthy(ns: seq<Node>, n: Node, ms: seq<Node>)
    requires AllHealthy(ns) && ProcValid(n.process)
    requires ms == BehindHead(ns, n)
    ensures AllHealthy(ms) && Entries(ms) == SS.Add(Entries(ns), Entry(n.process, n.process.sleepTicks))
  {
    forall i | 0 <= i < |ms| ensures ms[i] == if ns == [] then n else if i == 0 then ns[0] else if i == 1 then n else ns[i - 1] {
    }
  }

  lemma LeftEntries(ns: seq<Node>)
    requires AllHealthy(ns) && ns != []
    ensures |ns| > 1 ==>
              && AllHealthy(RemoveAt(ns, 0)) && Entries(RemoveAt(ns, 0)) == ExitHead(Entries(ns))
              && ProcessesOf(RemoveAt(ns, 0)) <= ProcessesOf(ns)
  {
    if |ns| > 1 {
      var ms := RemoveAt(ns, 0);
      var e := Entries(ns);
      forall i | 0 <= i < |ms|
        ensures ms[i] == ns[if i == 0 then |ns| - 1 else i] && ExitHead(e)[i] == e[if i == 0 then |ns| - 1 else i] {
      }
    }
  }

  class RoundRobin {
    var processes: Node?
    ghost var nodes: seq<Node>
    ghost var repr: set<Node>

    ghost predicate Valid()
      reads this, repr
    {
      && (forall i :: 0 <= i < |nodes| ==> nodes[i] in repr)
      && (processes == null <==> nodes == [])
      && (nodes != [] ==> processes == nodes[0])
      && Distinct(nodes)
      && Linked(nodes)
    }

    constructor ()
      ensures Valid() && nodes == [] && repr == {}
    {
      processes := null;
      nodes, repr := [], {};
    }

    /** Unlinks the successor of node `i`, which is not the head. */
    method UnlinkAfter(prev: Node, ghost i: nat)
      requires Valid() && i + 1 < |nodes| && prev == nodes[i]
      modifies this`nodes, prev
      ensures Valid() && nodes == old(nodes[..i + 1] + nodes[i + 2..])
    {
      prev.next := prev.next.next;
      assert i + 2 < |nodes| ==> prev.next == nodes[i + 2];
      assert i + 2 == |nodes| ==> prev.next == nodes[0];
      nodes := nodes[..i + 1] + nodes[i + 2..];
    }

    /** Unlinks the head of a ring of at least two nodes. */
    method UnlinkHead()
      requires Valid() && |nodes| > 1
      modifies this`nodes, this`processes, repr
      ensures Valid() && nodes == old(nodes[1..])
    {
      var head := processes;
      var tail := head;
      ghost var i := 0;
      while tail.next != head
        invariant 0 <= i < |nodes| && tail == nodes[i]
        decreases |nodes| - i
      {
        tail := tail.next;
        i := i + 1;
      }
      assert i == |nodes| - 1;
      assert head.next == nodes[1];
      tail.next := head.next;
      processes := head.next;
      nodes := nodes[1..];
    }

    /** Drops the invalid nodes in front of the ring. */
    method PruneHead(ghost ok: set<Node>)
      requires Valid() && HealthyIs(nodes, ok)
      modifies this`nodes, this`processes, repr
      ensures Valid() && Keep(nodes, ok) == old(Keep(nodes, ok)) && HealthyIs(nodes, ok)
      ensures nodes != [] ==> nodes[0] in ok
    {
      while processes != null && !ProcValid(processes.process)
        invariant Valid() && Keep(nodes, ok) == old(Keep(nodes, ok)) && HealthyIs(nodes, ok)
        decreases |nodes|
      {
        if processes.next == processes {
          assert |nodes| == 1;
          processes := null;
          nodes := [];
          return;
        }
        UnlinkHead();
      }
    }

    /** Drops one invalid node behind a kept one. */
    method DropAfter(prev: Node, ghost i: nat, ghost ok: set<Node>)
      requires Valid() && HealthyIs(nodes, ok)
      requires i + 1 < |nodes| && prev == nodes[i] && nodes[i + 1] !in ok
      modifies this`nodes, prev
      ensures Valid() && Keep(nodes, ok) == old(Keep(nodes, ok)) && HealthyIs(nodes, ok)
      ensures |nodes| == old(|nodes|) - 1 && nodes[..i + 1] == old(nodes[..i + 1])
    {
      DroppedAt(nodes, i, ok);
      UnlinkAfter(prev, i);
    }

    /** Drops the invalid nodes behind a valid head. */
    method PruneTail(ghost ok: set<Node>)
      requires Valid() && nodes != [] && nodes[0] in ok && HealthyIs(nodes, ok)
      modifies this`nodes, repr
      ensures Valid() && nodes == old(Keep(nodes, ok)) && AllHealthy(nodes)
    {
      PruneBehind(ok, Keep(nodes, ok));
      KeepAll(nodes, ok);
    }

    /** Walks behind a valid head until only the nodes in `kept` are left. */
    method PruneBehind(ghost ok: set<Node>, ghost kept: seq<Node>)
      requires Valid() && nodes != [] && nodes[0] in ok && HealthyIs(nodes, ok)
      requires Keep(nodes, ok) == kept
      modifies this`nodes, repr
      ensures Valid() && HealthyIs(nodes, ok) && Keep(nodes, ok) == kept && AllIn(nodes, ok)
    {
      var prev := processes;
      var cur := prev.next;
      ghost var i: nat := 0;
      while cur != processes
        invariant Valid() && Keep(nodes, ok) == kept && HealthyIs(nodes, ok)
        invariant i < |nodes| && prev == nodes[i] && cur == nodes[if i + 1 < |nodes| then i + 1 else 0]
        invariant AllIn(nodes[..i + 1], ok)
        decreases |nodes| - i
      {
        prev, cur, i := PruneNext(prev, cur, i, ok);
      }
      assert nodes[..i + 1] == nodes;
    }

    /** Drops the node behind node `i` if it is invalid, and goes on to it otherwise. */
    method PruneNext(prev: Node, cur: Node, ghost i: nat, ghost ok: set<Node>)
      returns (prev': Node, cur': Node, ghost i': nat)
      requires Valid() && i + 1 < |nodes| && prev == nodes[i] && cur == nodes[i + 1]
      requires HealthyIs(nodes, ok) && AllIn(nodes[..i + 1], ok)
      modifies this`nodes, prev
      ensures Valid() && HealthyIs(nodes, ok) && Keep(nodes, ok) == old(Keep(nodes, ok))
      ensures i' < |nodes| && prev' == nodes[i'] && AllIn(nodes[..i' + 1], ok)
      ensures cur' == nodes[if i' + 1 < |nodes| then i' + 1 else 0]
      ensures |nodes| - i' < old(|nodes|) - i
    {
      if !ProcValid(cur.process) {
        DropAfter(prev, i, ok);
        return prev, prev.next, i;
      }
      AllInSnoc(nodes, i + 1, ok);
      return cur, cur.next, i + 1;
    }

    /** Drops every node whose process is invalid and keeps the others in order. */
    method Prune()
      requires Valid()
      modifies this`nodes, this`processes, repr
      ensures Valid() && nodes == old(Keep(nodes, Healthy(nodes))) && AllHealthy(nodes)
    {
      if processes == null {
        return;
      }
      ghost var ok := Healthy(nodes);
      PruneHead(ok);
      if processes == null {
        return;
      }
      PruneTail(ok);
    }

    method GetCurrent() returns (r: Process?)
      requires Valid()
      modifies this`nodes, this`processes, repr
      ensures Valid() && nodes == old(Keep(nodes, Healthy(nodes))) && AllHealthy(nodes)
      ensures if nodes == [] then r == null else r == nodes[0].process
    {
      Prune();
      r := if processes != null then processes.process else null;
    }

    /** Whether some process on the ring has this pid. */
    method Exists(pid: nat) returns (found: bool)
      requires Valid()
      ensures found <==> exists i :: 0 <= i < |nodes| && nodes[i].process != null && nodes[i].process.pid == pid
    {
      var p := processes;
      if p == null {
        return false;
      }
      ghost var i := 0;
      while true
        invariant 0 <= i < |nodes| && p == nodes[i]
        invariant forall j :: 0 <= j < i ==> nodes[j].process == null || nodes[j].process.pid != pid
        decreases |nodes| - i
      {
        if p.process != null && p.process.pid == pid {
          return true;
        }
        p := p.next;
        i := i + 1;
        if p == processes {
          return false;
        }
      }
    }

    /** Links a fresh node behind the head. */
    method InsertBehindHead(n: Node)
      requires Valid() && nodes != [] && n !in repr
      requires n.process != null && forall i :: 0 <= i < |nodes| ==> nodes[i].process != n.process
      modifies this`nodes, this`repr, repr, n
      ensures Valid() && nodes == old([nodes[0], n] + nodes[1..]) && repr == old(repr) + {n}
    {
      ghost var ns := nodes;
      var q := processes.next;
      assert q == ns[if |ns| > 1 then 1 else 0];
      processes.next := n;
      n.next := q;
      nodes, repr := [ns[0], n] + ns[1..], repr + {n};
      assert forall i :: 2 <= i < |nodes| ==> nodes[i] == ns[i - 1];
    }

    /** Puts the process right behind the current one, unless it is not fit to run. */
    method Add(p: Process?) returns (ghost n: Node?)
      requires Valid()
      requires forall i :: 0 <= i < |nodes| ==> nodes[i].process != p
      modifies this, repr
      ensures Valid() && fresh(repr - old(repr))
      ensures p == null || p.directory == 0 || p.savedKernelStack == 0 ==> nodes == old(nodes)
      ensures p != null && p.directory != 0 && p.savedKernelStack != 0 ==>
                && n != null && n.process == p
                && nodes == BehindHead(old(Keep(nodes, Healthy(nodes))), n)
    {
      n := null;
      if p == null || p.directory == 0 || p.savedKernelStack == 0 {
        return;
      }
      KeepDistinct(nodes, Healthy(nodes), p);
      Prune();
      var added := new Node(p);
      n := added;
      if processes == null {
        processes := added;
        nodes, repr := [added], repr + {added};
      } else {
        InsertBehindHead(added);
      }
    }

    /** Moves the successor of node `i` right behind the head. */
    method MoveBehindHead(p: Node, ghost i: nat)
      requires Valid() && 0 < i && i + 1 < |nodes| && p == nodes[i]
      modifies this`nodes, repr
      ensures Valid()
      ensures nodes == old(Reordered(nodes, i))
    {
      ghost var ns := nodes;
      DistinctReordered(ns, i);
      var next := p.next;
      var moved := processes.next;
      assert next == ns[i + 1] && moved == ns[1];
      assert next.next == if i + 2 < |ns| then ns[i + 2] else ns[0];
      p.next := next.next;
      next.next := moved;
      processes.next := next;
      nodes := Reordered(ns, i);
    }

    /** Makes the head's successor the current node. */
    method Advance()
      requires Valid() && nodes != []
      modifies this`nodes, this`processes
      ensures Valid() && nodes == old(nodes[1..] + [nodes[0]])
    {
      assert processes.next == if |nodes| > 1 then nodes[1] else nodes[0];
      processes := processes.next;
      nodes := nodes[1..] + [nodes[0]];
    }

    /** Walks from the current node until some node's successor is awake (the walk may come all
        the way round to the current node) and charges one tick to every sleeper on the way. */
    method Scan() returns (p: Node, found: bool, ghost i: nat)
      requires Valid() && NonNull(nodes) && nodes != []
      modifies ProcessesOf(nodes)`sleepTicks
      ensures i < |nodes| && p == nodes[i]
      ensures Scanned(old(Entries(nodes)), Entries(nodes), i, found)
    {
      ghost var s := Entries(nodes);
      p, i := processes, 0;
      while true
        invariant 0 <= i < |nodes| && p == nodes[i] && Walked(s, Entries(nodes), i)
        decreases |nodes| - i
      {
        found := Look(p, i, s);
        if found {
          return;
        }
        assert p.next == nodes[if i + 1 < |nodes| then i + 1 else 0];
        if p.next == processes {
          return;
        }
        p, i := p.next, i + 1;
      }
    }

    /** Looks at the successor of node `i`: awake, or charged with one tick. */
    method Look(p: Node, ghost i: nat, ghost s: seq<Entry<Process?>>) returns (awake: bool)
      requires Valid() && NonNull(nodes) && i < |nodes| && p == nodes[i] && Walked(s, Entries(nodes), i)
      modifies ProcessesOf(nodes)`sleepTicks
      ensures awake || i + 1 == |nodes| ==> Scanned(s, Entries(nodes), i, awake)
      ensures !awake && i + 1 < |nodes| ==> Walked(s, Entries(nodes), i + 1)
    {
      ghost var k := if i + 1 < |nodes| then i + 1 else 0;
      ghost var e := Entries(nodes);
      assert p.next == nodes[k];
      if p.next.process.sleepTicks == 0 {
        WalkedFound(s, e, i);
        return true;
      }
      WalkedOn(s, e, i);
      Charge(p.next.process, k);
      return false;
    }

    method Charge(q: Process, ghost k: nat)
      requires NonNull(nodes) && Distinct(nodes)
      requires k < |nodes| && q == nodes[k].process && q.sleepTicks > 0
      modifies q`sleepTicks
      ensures Entries(nodes) == old(Entries(nodes)[k := Tick(Entries(nodes)[k])])
    {
      q.sleepTicks := q.sleepTicks - 1;
    }

    /** Makes the successor of `p`, or the head's successor, the current node. */
    method Rotate(p: Node, found: bool, ghost i: nat)
      requires Valid() && NonNull(nodes) && nodes != []
      requires found ==> i + 1 < |nodes| && p == nodes[i]
      modifies this`nodes, this`processes, repr
      ensures Valid() && nodes == old(Rotated(nodes, found, i))
    {
      ghost var ns := nodes;
      if found && p.next != processes.next {
        assert i > 0;
        MoveBehindHead(p, i);
        assert nodes[1..] == [ns[i + 1]] + ns[1..i + 1] + ns[i + 2..];
      }
      assert found ==> nodes[1..] == [ns[i + 1]] + ns[1..i + 1] + ns[i + 2..];
      Advance();
    }

    method Switch(p: Node, found: bool, ghost i: nat)
      requires Valid() && NonNull(nodes) && nodes != []
      requires found ==> i + 1 < |nodes| && p == nodes[i]
      modifies this`nodes, this`processes, repr
      ensures Valid() && NonNull(nodes) && |nodes| == old(|nodes|)
      ensures Entries(nodes) == old(Rotated(Entries(nodes), found, i))
    {
      RotatedEntries(nodes, found, i);
      Rotate(p, found, i);
    }

    /** The scheduling decision on a pruned ring. */
    method SelectNext() returns (r: Process?)
      requires Valid() && NonNull(nodes) && nodes != []
      modifies this`nodes, this`processes, repr, ProcessesOf(nodes)`sleepTicks
      ensures Valid() && NonNull(nodes) && |nodes| == old(|nodes|)
      ensures Entries(nodes) == Next(old(Entries(nodes)))
      ensures r == nodes[0].process
    {
      ghost var s := Entries(nodes);
      var p, found, i := Scan();
      MakeCurrent(p, found, i, s);
      r := processes.process;
    }

    /** Makes the process that the scan of the ring `s` stopped in front of the current one. */
    method MakeCurrent(p: Node, found: bool, ghost i: nat, ghost s: seq<Entry<Process?>>)
      requires Valid() && NonNull(nodes) && i < |nodes| && p == nodes[i] && Scanned(s, Entries(nodes), i, found)
      modifies this`nodes, this`processes, repr
      ensures Valid() && NonNull(nodes) && |nodes| == old(|nodes|) && Entries(nodes) == Next(s)
    {
      ScannedIsNext(s, Entries(nodes), i, found);
      if found && p.next == processes {
        assert i + 1 == |nodes|;
        return;
      }
      Switch(p, found, i);
    }

    /** `sched_next`: prunes the ring and selects the process to run, null when none is left. */
    method Reschedule() returns (r: Process?)
      requires Valid()
      modifies this`nodes, this`processes, repr, ProcessesOf(nodes)`sleepTicks
      ensures Valid() && NonNull(nodes)
      ensures NonNull(old(Keep(nodes, Healthy(nodes))))
      ensures Entries(nodes) == Next(old(Entries(Keep(nodes, Healthy(nodes)))))
      ensures r == if nodes == [] then null else nodes[0].process
    {
      KeptNonNull(nodes);
      Prune();
      r := SelectIfAny();
    }

    method SelectIfAny() returns (r: Process?)
      requires Valid() && NonNull(nodes)
      modifies this`nodes, this`processes, repr, ProcessesOf(nodes)`sleepTicks
      ensures Valid() && NonNull(nodes) && Entries(nodes) == Next(old(Entries(nodes)))
      ensures r == if nodes == [] then null else nodes[0].process
    {
      if processes == null {
        return null;
      }
      r := SelectNext();
    }

    /** Rewrites the ghost sequence so that it starts at node `i`. */
    method TurnTo(p: Node, ghost i: nat)
      requires Valid() && i < |nodes| && p == nodes[i]
      modifies this`nodes, this`processes
      ensures Valid() && nodes == old(nodes[i..] + nodes[..i]) && processes == p
    {
      ghost var ns := nodes;
      processes, nodes := p, ns[i..] + ns[..i];
      forall j | 0 <= j < |ns| ensures nodes[j] == ns[if i + j < |ns| then i + j else i + j - |ns|] {
      }
    }

    /** The node in front of the one that holds `process`, null when no node does. */
    method FindBefore(process: Process) returns (p: Node?, ghost i: nat, ghost k: nat)
      requires Valid() && |nodes| > 1
      ensures p == null ==> forall j :: 0 <= j < |nodes| ==> nodes[j].process != process
      ensures p != null ==> i < |nodes| && p == nodes[i] && k == After(i) && nodes[k].process == process
    {
      p, i, k := processes, 0, 1;
      while p.next.process != process
        invariant p != null && 0 <= i < |nodes| && p == nodes[i] && k == After(i)
        invariant forall j :: 0 < j <= i ==> nodes[j].process != process
        decreases |nodes| - i
      {
        assert p.next == nodes[k];
        if p.next == processes {
          return null, i, k;
        }
        p, i := p.next, i + 1;
        k := After(i);
      }
    }

    ghost function After(i: nat): (k: nat)
      requires i < |nodes|
      reads this
    {
      if i + 1 < |nodes| then i + 1 else 0
    }

    method RemoveAfter(p: Node, ghost i: nat)
      requires Valid() && |nodes| > 1 && i < |nodes| && p == nodes[i]
      modifies this`nodes, this`processes, repr
      ensures Valid() && nodes == old(RemoveAt(nodes, After(i)))
    {
      TurnedRemoval(nodes, i);
      TurnTo(p, i);
      UnlinkAfter(p, 0);
    }

    /** Takes the process off the ring and makes its predecessor current.  The only node of a
        one-element ring goes whatever process it holds. */
    method Exit(process: Process)
      requires Valid()
      modifies this`nodes, this`processes, repr
      ensures Valid()
      ensures old(|nodes|) <= 1 ==> nodes == []
      ensures old(|nodes|) > 1 ==>
                forall k :: 0 <= k < old(|nodes|) && old(nodes)[k].process == process ==>
                              nodes == RemoveAt(old(nodes), k)
      ensures old(|nodes|) > 1 && (forall k :: 0 <= k < old(|nodes|) ==> old(nodes)[k].process != process) ==>
                nodes == old(nodes)
    {
      if processes == null {
        return;
      }
      if processes == processes.next {
        assert |nodes| == 1;
        processes := null;
        nodes := [];
        return;
      }
      assert |nodes| > 1;
      ghost var ns := nodes;
      var p, i, k := FindBefore(process);
      if p == null {
        return;
      }
      assert forall j :: 0 <= j < |ns| && ns[j].process == process ==> j == k;
      RemoveAfter(p, i);
    }

    // ---- The same calls on a ring where pruning finds nothing to remove ----

    method AddHealthy(p: Process) returns (ghost n: Node)
      requires Valid() && AllHealthy(nodes) && ProcValid(p)
      requires forall i :: 0 <= i < |nodes| ==> nodes[i].process != p
      modifies this, repr
      ensures Valid() && fresh(repr - old(repr))
      ensures n.process == p && nodes == BehindHead(old(nodes), n)
    {
      KeepAll(nodes, Healthy(nodes));
      n := Add(p);
    }

    method Enter(p: Process)
      requires Valid() && AllHealthy(nodes) && ProcValid(p)
      requires forall i :: 0 <= i < |nodes| ==> nodes[i].process != p
      modifies this, repr
      ensures Valid() && fresh(repr - old(repr))
      ensures AllHealthy(nodes) && Entries(nodes) == SS.Add(old(Entries(nodes)), Entry(p, p.sleepTicks))
      ensures old(nodes) != [] ==> nodes[0] == old(nodes)[0]
    {
      ghost var ns := nodes;
      ghost var n := AddHealthy(p);
      assert AllHealthy(ns) && Entries(ns) == old(Entries(ns));
      InsertedHealthy(ns, n, nodes);
    }

    method CurrentHealthy() returns (r: Process?)
      requires Valid() && AllHealthy(nodes)
      modifies this`nodes, this`processes, repr
      ensures Valid() && nodes == old(nodes)
      ensures r == if nodes == [] then null else nodes[0].process
    {
      KeepAll(nodes, Healthy(nodes));
      r := GetCurrent();
    }

    method RescheduleHealthy() returns (r: Process?)
      requires Valid() && AllHealthy(nodes)
      modifies this`nodes, this`processes, repr, ProcessesOf(nodes)`sleepTicks
      ensures Valid() && NonNull(nodes)
      ensures Entries(nodes) == Next(old(Entries(nodes)))
      ensures r == if nodes == [] then null else nodes[0].process
    {
      KeepAll(nodes, Healthy(nodes));
      r := Reschedule();
    }

    method Elect() returns (r: Process?)
      requires Valid() && AllHealthy(nodes)
      modifies this`nodes, this`processes, repr, ProcessesOf(nodes)`sleepTicks
      ensures Valid() && AllHealthy(nodes)
      ensures Entries(nodes) == Next(old(Entries(nodes)))
      ensures r == if nodes == [] then null else nodes[0].process
    {
      ghost var ns, s := nodes, Entries(nodes);
      r := RescheduleKeeping(ns);
      StillHealthy(ns, s, nodes);
    }

    /** Rescheduling changes sleep counters only, so the processes of `ns` stay healthy. */
    method RescheduleKeeping(ghost ns: seq<Node>) returns (r: Process?)
      requires Valid() && AllHealthy(nodes) && ns == nodes
      modifies this`nodes, this`processes, repr, ProcessesOf(nodes)`sleepTicks
      ensures Valid() && NonNull(nodes) && AllHealthy(ns)
      ensures Entries(nodes) == Next(old(Entries(nodes)))
      ensures r == if nodes == [] then null else nodes[0].process
    {
      r := RescheduleHealthy();
    }

    method LeaveHead()
      requires Valid() && AllHealthy(nodes) && nodes != []
      modifies this`nodes, this`processes, repr
      ensures Valid() && AllHealthy(nodes)
      ensures Entries(nodes) == ExitHead(old(Entries(nodes)))
      ensures ProcessesOf(nodes) <= old(ProcessesOf(nodes))
    {
      LeftEntries(nodes);
      Exit(processes.process);
    }
  }
}
