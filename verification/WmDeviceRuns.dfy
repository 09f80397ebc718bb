/** What each process gets out of /dev/wm over a whole run. */
module WmDeviceRuns {
  import opened Arithmetic
  import opened Bytes
  import opened WmQueueSpec
  import opened WmDeviceSpec

  /** The messages waiting for a process. */
  function Pending(qs: seq<Queue>, p: nat): seq<Msg> {
    var i := Find(qs, p);
    if i < |qs| then qs[i].msgs else []
  }

  // ---- One call, seen by one process

  lemma {:induction false} FindSame(qs: seq<Queue>, rs: seq<Queue>, p: nat)
    requires |qs| == |rs| && forall i :: 0 <= i < |qs| ==> (qs[i].pid == p <==> rs[i].pid == p)
    ensures Find(qs, p) == Find(rs, p)
  {
    assert Find(qs, p) <= Find(rs, p) <= Find(qs, p);
  }

  /** Giving a process a slot changes nobody's messages. */
  lemma EnsureKeepsPending(qs: seq<Queue>, pid: nat, p: nat)
    requires pid != 0 && p != 0
    ensures Pending(Ensure(qs, pid), p) == Pending(qs, p)
  {
    var j := Find(qs, 0);
    if Find(qs, pid) == |qs| && j < |qs| {
      if p == pid {
        ClaimFinds(qs, pid);
      } else {
        FindSame(qs, qs[j := Queue(pid, [])], p);
      }
    }
  }

  lemma RegisterKeepsPending(st: State, pid: nat, p: nat)
    requires pid != 0 && p != 0
    ensures Pending(Register(st, pid).queues, p) == Pending(st.queues, p)
  {
    EnsureKeepsPending(st.queues, pid, p);
    EnsureKeepsPending(Ensure(st.queues, pid), pid, p);
  }

  /** A message posted to `dst` joins the queue of `dst` and no other. */
  lemma PostPending(qs: seq<Queue>, dst: nat, m: Msg, p: nat)
    requires dst != 0 && p != 0
    ensures var (rs, ok) := Post(qs, dst, m);
            Pending(rs, p) == if ok && p == dst then Enqueue(Pending(qs, p), m) else Pending(qs, p)
  {
    EnsureKeepsPending(qs, dst, p);
    var es := Ensure(qs, dst);
    var i := Find(es, dst);
    if i < |es| {
      FindSame(es, Put(es, i, m), p);
    }
  }

  /** What a call successfully sends to `p`: one message or none. */
  function SentBy(st: State, c: Call, p: nat): seq<Msg> {
    match c
    case WriteCall(pid, buffer) =>
      if Shaped(pid, buffer) && Write(st, pid, buffer).1 >= 0 && Target(Register(st, pid), buffer) == p
      then [Carried(pid, buffer)] else []
    case ReadCall(_, _) => []
  }

  /** What a call hands over to `p`: the bytes of one successful read or nothing. */
  function HandedTo(st: State, c: Call, p: nat): seq<seq<byte>>
    requires Inv(st)
  {
    match c
    case ReadCall(pid, size) =>
      if pid == p && Read(st, pid, size).1 > 0 then [Read(st, pid, size).2] else []
    case WriteCall(_, _) => []
  }

  lemma WritePending(st: State, pid: nat, buffer: seq<byte>, p: nat)
    requires Inv(st) && p != 0
    ensures var m := SentBy(st, WriteCall(pid, buffer), p);
            Pending(Write(st, pid, buffer).0.queues, p) ==
            if m == [] then Pending(st.queues, p) else Enqueue(Pending(st.queues, p), m[0])
  {
    if Shaped(pid, buffer) {
      RegisterKeepsPending(st, pid, p);
      RegisterElects(st, pid);
      var st1 := Register(st, pid);
      var dst := Target(st1, buffer);
      if pid == st1.server || dst == st1.server {
        PostPending(st1.queues, dst, Carried(pid, buffer), p);
      }
    }
  }

  /** A read returns -1 without a process or without room for a header, 0 when nothing is waiting, -1 when
      the oldest message does not fit, and otherwise that message and its length. */
  lemma ReadReturns(st: State, pid: nat, size: nat)
    requires Inv(st)
    ensures var q := Pending(st.queues, pid); var (_, res, bytes) := Read(st, pid, size);
            if pid == 0 || size < 12 then res == -1 && bytes == []
            else if q == [] then res == 0 && bytes == []
            else if 12 + |q[0].payload| > size then res == -1 && bytes == []
            else WellFormed(q[0]) && res == 12 + |q[0].payload| && bytes == Delivered(q[0])
  {
    var qs := st.queues;
    if Find(qs, pid) < |qs| {
      assert QueueOk(st.server, qs[Find(qs, pid)]);
    }
  }

  lemma ReadPending(st: State, pid: nat, size: nat, p: nat)
    requires Inv(st) && p != 0
    ensures var r := HandedTo(st, ReadCall(pid, size), p); var q := Pending(st.queues, p);
            && AllWellFormed(q)
            && if r == [] then Pending(Read(st, pid, size).0.queues, p) == q
               else q != [] && r == [Frame(q[0])] && Pending(Read(st, pid, size).0.queues, p) == q[1..]
  {
    var qs, rs := st.queues, Read(st, pid, size).0.queues;
    FindSame(qs, rs, p);
    if Find(qs, p) < |qs| {
      assert QueueOk(st.server, qs[Find(qs, p)]);
    }
  }

  // ---- Whole runs

  lemma StepKeepsInv(st: State, c: Call)
    requires Inv(st) && c.pid < TWO32
    ensures Inv(Step(st, c))
  {
    match c
    case WriteCall(pid, buffer) => WriteKeepsInv(st, pid, buffer);
    case ReadCall(pid, size) => ReadKeepsInv(st, pid, size);
  }

  /** The state after a run. */
  ghost function After(st: State, calls: seq<Call>): (r: State)
    requires Inv(st) && PidsOk(calls)
    ensures Inv(r)
  {
    if calls == [] then st
    else
      var before := After(st, calls[..|calls| - 1]);
      StepKeepsInv(before, calls[|calls| - 1]);
      Step(before, calls[|calls| - 1])
  }

  /** All messages a run successfully writes to `p`, in order. */
  ghost function SentTo(st: State, calls: seq<Call>, p: nat): seq<Msg>
    requires Inv(st) && PidsOk(calls)
  {
    if calls == [] then []
    else
      var front := calls[..|calls| - 1];
      SentTo(st, front, p) + SentBy(After(st, front), calls[|calls| - 1], p)
  }

  /** All bytes the reads of `p` return, read by read. */
  ghost function Handed(st: State, calls: seq<Call>, p: nat): seq<seq<byte>>
    requires Inv(st) && PidsOk(calls)
  {
    if calls == [] then []
    else
      var front := calls[..|calls| - 1];
      Handed(st, front, p) + HandedTo(After(st, front), calls[|calls| - 1], p)
  }

  /** What a reader gets of a message: its sender, type, length and payload. */
  function Delivered(m: Msg): seq<byte>
    requires WellFormed(m)
  {
    U32(m.src) + U32(m.kind) + U32(|m.payload|) + m.payload
  }

  /** The call is a successful write of a letter with type and payload of `m` that goes to `p`. */
  ghost predicate Sends(st: State, c: Call, p: nat, m: Msg) {
    && c.WriteCall? && c.pid == m.src && m.kind < TWO32 && |m.payload| <= 256
    && Write(st, c.pid, c.buffer).1 != -1
    && exists dst: nat, extra ::
         dst < TWO32 && c.buffer == Letter(dst, m.kind, m.payload, extra) && p == Addressee(st, c.pid, dst)
  }

  lemma SentByIff(st: State, c: Call, p: nat, m: Msg)
    ensures SentBy(st, c, p) == [m] <==> Sends(st, c, p, m)
  {
    if c.WriteCall? && SentBy(st, c, p) != [] {
      var dst, kind, payload, extra := ShapedIsLetter(c.pid, c.buffer);
      LetterCarries(st, c.pid, dst, kind, payload, extra);
    }
    if Sends(st, c, p, m) {
      var dst: nat, extra :| dst < TWO32 && c.buffer == Letter(dst, m.kind, m.payload, extra) && p == Addressee(st, c.pid, dst);
      LetterCarries(st, c.pid, dst, m.kind, m.payload, extra);
    }
  }

  /** What the calls of a run send to `p`, each message with the number of its call. */
  ghost function Sendings(st: State, calls: seq<Call>, p: nat): iset<(nat, Msg)>
    requires Inv(st) && PidsOk(calls)
  {
    iset k: nat, m | k < |calls| && Sends(After(st, calls[..k]), calls[k], p, m) :: (k, m)
  }

  /** `sent` are all messages of the calls below `n`, and `when` the numbers of these calls, in order. */
  ghost predicate Lists(all: iset<(nat, Msg)>, n: nat, sent: seq<Msg>, when: seq<nat>) {
    && |sent| == |when|
    && (forall i, j :: 0 <= i < j < |when| ==> when[i] < when[j])
    && (forall i :: 0 <= i < |when| ==> when[i] < n && (when[i], sent[i]) in all)
    && (forall k: nat, m :: (k, m) in all && k < n ==> k in when)
  }

  /** `m` is the message of call `n`, if there is one. */
  ghost predicate Matches(all: iset<(nat, Msg)>, n: nat, m: seq<Msg>) {
    |m| <= 1 && forall x :: m == [x] <==> (n, x) in all
  }

  lemma ListsNothing(all: iset<(nat, Msg)>)
    ensures Lists(all, 0, [], [])
  {
  }

  lemma ListsOn(all: iset<(nat, Msg)>, n: nat, sent: seq<Msg>, when: seq<nat>, m: seq<Msg>) returns (when': seq<nat>)
    requires Lists(all, n, sent, when) && Matches(all, n, m)
    ensures Lists(all, n + 1, sent + m, when')
  {
    when' := when;
    if m != [] {
      when' := when + [n];
      assert m == [m[0]] && when'[|when|] == n;
      forall k: nat, x | (k, x) in all && k < n + 1 ensures k in when' {
        assert k < n ==> k in when;
      }
    }
  }

  /** Whatever call `k` sends to `p`, at its time in the run. */
  ghost function SentAt(st: State, calls: seq<Call>, k: nat, p: nat): seq<Msg>
    requires Inv(st) && PidsOk(calls) && k < |calls|
  {
    SentBy(After(st, calls[..k]), calls[k], p)
  }

  lemma {:induction false} SentToIs(st: State, calls: seq<Call>, n: nat, p: nat, all: iset<(nat, Msg)>) returns (when: seq<nat>)
    requires Inv(st) && PidsOk(calls) && n <= |calls|
    requires forall k: nat :: k < |calls| ==> Matches(all, k, SentAt(st, calls, k, p))
    ensures Lists(all, n, SentTo(st, calls[..n], p), when)
    decreases n
  {
    if n == 0 {
      ListsNothing(all);
      return [];
    }
    var before := SentToIs(st, calls, n - 1, p, all);
    SentToOn(st, calls, n - 1, p);
    when := ListsOn(all, n - 1, SentTo(st, calls[..n - 1], p), before, SentAt(st, calls, n - 1, p));
  }

  lemma {:induction false} SentToOn(st: State, calls: seq<Call>, k: nat, p: nat)
    requires Inv(st) && PidsOk(calls) && k < |calls|
    ensures SentTo(st, calls[..k + 1], p) == SentTo(st, calls[..k], p) + SentAt(st, calls, k, p)
  {
    assert calls[..k + 1][..k] == calls[..k];
  }

  lemma {:induction false} SendingAt(st: State, calls: seq<Call>, k: nat, p: nat)
    requires Inv(st) && PidsOk(calls) && k < |calls|
    ensures Matches(Sendings(st, calls, p), k, SentAt(st, calls, k, p))
  {
    forall x ensures SentAt(st, calls, k, p) == [x] <==> (k, x) in Sendings(st, calls, p) {
      SentByIff(After(st, calls[..k]), calls[k], p, x);
    }
  }

  /** `at` lists, in increasing order and below `head`, where the frames handed over were sent; what
      was sent from `head` on is still waiting. */
  ghost predicate InOrder(sent: seq<Msg>, handed: seq<seq<byte>>, pending: seq<Msg>, at: seq<nat>, head: nat) {
    && AllWellFormed(sent) && head <= |sent| && pending == sent[head..] && |at| == |handed|
    && (forall i :: 0 <= i < |at| ==> at[i] < head && handed[i] == Delivered(sent[at[i]]))
    && (forall i, j :: 0 <= i < j < |at| ==> at[i] < at[j])
  }

  lemma SendStep(sent: seq<Msg>, handed: seq<seq<byte>>, pending: seq<Msg>, at: seq<nat>, head: nat, m: Msg)
    returns (head': nat)
    requires InOrder(sent, handed, pending, at, head) && WellFormed(m)
    ensures InOrder(sent + [m], handed, Enqueue(pending, m), at, head')
  {
    var k := EvictKeepsLongestSuffix(pending, Size(m));
    head' := head + k;
    assert sent[head..][k..] == sent[head'..];
    assert (sent + [m])[head'..] == sent[head'..] + [m];
  }

  lemma ReceiveStep(sent: seq<Msg>, handed: seq<seq<byte>>, pending: seq<Msg>, at: seq<nat>, head: nat)
    requires InOrder(sent, handed, pending, at, head) && pending != [] && WellFormed(pending[0])
    ensures InOrder(sent, handed + [Frame(pending[0])], pending[1..], at + [head], head + 1)
  {
    assert pending[0] == sent[head] && pending[1..] == sent[head + 1..];
  }

  lemma CarriedIsWellFormed(pid: nat, buffer: seq<byte>)
    requires Shaped(pid, buffer) && pid < TWO32
    ensures WellFormed(Carried(pid, buffer))
  {
  }

  /** Over every run of the device and for every process: `sent` are the messages that letters written
      successfully carry to it; the bytes its reads return are those of an in-order selection of them,
      without repetition, and what is waiting for it is the end of that list. */
  lemma {:induction false} EachProcessReadsInOrder(slots: nat, calls: seq<Call>, p: nat)
    returns (sent: seq<Msg>, when: seq<nat>, at: seq<nat>, head: nat)
    requires PidsOk(calls) && p != 0
    ensures Inv(Boot(slots)) && Lists(Sendings(Boot(slots), calls, p), |calls|, sent, when)
    ensures InOrder(sent, Handed(Boot(slots), calls, p), Pending(After(Boot(slots), calls).queues, p), at, head)
  {
    BootInv(slots);
    sent := SentTo(Boot(slots), calls, p);
    forall k: nat | k < |calls| ensures Matches(Sendings(Boot(slots), calls, p), k, SentAt(Boot(slots), calls, k, p)) {
      SendingAt(Boot(slots), calls, k, p);
    }
    when := SentToIs(Boot(slots), calls, |calls|, p, Sendings(Boot(slots), calls, p));
    assert calls[..|calls|] == calls;
    at, head := SelectionOfSent(slots, calls, p);
  }

  lemma {:induction false} SelectionOfSent(slots: nat, calls: seq<Call>, p: nat) returns (at: seq<nat>, head: nat)
    requires PidsOk(calls) && p != 0
    ensures Inv(Boot(slots))
    ensures InOrder(SentTo(Boot(slots), calls, p), Handed(Boot(slots), calls, p),
                    Pending(After(Boot(slots), calls).queues, p), at, head)
  {
    BootInv(slots);
    if calls == [] {
      return [], 0;
    }
    var front, c := calls[..|calls| - 1], calls[|calls| - 1];
    at, head := SelectionOfSent(slots, front, p);
    at, head := OneCall(After(Boot(slots), front), c, p, SentTo(Boot(slots), front, p), Handed(Boot(slots), front, p), at, head);
  }

  lemma OneCall(st: State, c: Call, p: nat, sent: seq<Msg>, handed: seq<seq<byte>>, at: seq<nat>, head: nat)
    returns (at': seq<nat>, head': nat)
    requires Inv(st) && c.pid < TWO32 && p != 0 && InOrder(sent, handed, Pending(st.queues, p), at, head)
    ensures InOrder(sent + SentBy(st, c, p), handed + HandedTo(st, c, p), Pending(Step(st, c).queues, p), at', head')
  {
    at', head' := at, head;
    match c
    case WriteCall(pid, buffer) =>
      WritePending(st, pid, buffer, p);
      assert handed + [] == handed && sent + [] == sent;
      if SentBy(st, c, p) != [] {
        CarriedIsWellFormed(pid, buffer);
        head' := SendStep(sent, handed, Pending(st.queues, p), at, head, Carried(pid, buffer));
      }
    case ReadCall(pid, size) =>
      ReadPending(st, pid, size, p);
      assert handed + [] == handed && sent + [] == sent;
      if HandedTo(st, c, p) != [] {
        ReceiveStep(sent, handed, Pending(st.queues, p), at, head);
        at', head' := at + [head], head + 1;
      }
  }

  /** A letter to a process with nothing waiting is what that process reads next: under the pid of the
      writer, with type, length and payload as written. */
  lemma WrittenIsRead(st: State, pid: nat, dst: nat, kind: nat, payload: seq<byte>, extra: seq<byte>, size: nat)
    requires Inv(st) && pid < TWO32 && dst < TWO32 && kind < TWO32 && |payload| <= 256 && size >= 12 + |payload|
    requires Pending(st.queues, Addressee(st, pid, dst)) == []
    requires Write(st, pid, Letter(dst, kind, payload, extra)).1 != -1
    ensures var r := Write(st, pid, Letter(dst, kind, payload, extra)).0;
            && Inv(r)
            && Read(r, Addressee(st, pid, dst), size).1 == 12 + |payload|
            && Read(r, Addressee(st, pid, dst), size).2 == U32(pid) + U32(kind) + U32(|payload|) + payload
  {
    var b, p := Letter(dst, kind, payload, extra), Addressee(st, pid, dst);
    LetterCarries(st, pid, dst, kind, payload, extra);
    WriteKeepsInv(st, pid, b);
    WritePending(st, pid, b, p);
    assert SentBy(st, WriteCall(pid, b), p) == [Msg(pid, kind, payload)];
    assert Enqueue([], Msg(pid, kind, payload)) == [Msg(pid, kind, payload)];
  }
}
