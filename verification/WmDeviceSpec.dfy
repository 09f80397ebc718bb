/** The /dev/wm device as message queues by process: who may write to whom, and what a
    process can find in its queue, over every run of reads and writes. */
module WmDeviceSpec {
  import opened Arithmetic
  import opened Bytes
  import opened WmQueueSpec

  /** A slot of the endpoint table; pid 0 marks a free slot. */
  datatype Queue = Queue(pid: nat, msgs: seq<Msg>)

  /** `server` is 0 until the first write. */
  datatype State = State(server: nat, queues: seq<Queue>)

  /** The first slot with this pid, or the table size. */
  function Find(qs: seq<Queue>, pid: nat): (i: nat)
    ensures i <= |qs|
    ensures i < |qs| ==> qs[i].pid == pid
    ensures forall j :: 0 <= j < i ==> qs[j].pid != pid
  {
    if qs == [] then 0
    else if qs[0].pid == pid then 0
    else
      var i := Find(qs[1..], pid);
      assert forall j :: 0 < j < |qs| ==> qs[j] == qs[1..][j - 1];
      i + 1
  }

  /** The table after `ensure_ep`: a process without a slot gets the first free one, if any. */
  function Ensure(qs: seq<Queue>, pid: nat): (r: seq<Queue>)
    ensures |r| == |qs|
  {
    if Find(qs, pid) < |qs| then qs
    else
      var j := Find(qs, 0);
      if j < |qs| then qs[j := Queue(pid, [])] else qs
  }

  function Put(qs: seq<Queue>, i: nat, m: Msg): (r: seq<Queue>)
    requires i < |qs|
    ensures |r| == |qs|
  {
    qs[i := qs[i].(msgs := Enqueue(qs[i].msgs, m))]
  }

  /** Appends to the addressee's queue, which it creates when there is a free slot. */
  function Post(qs: seq<Queue>, dst: nat, m: Msg): (seq<Queue>, bool) {
    var r := Ensure(qs, dst);
    var i := Find(r, dst);
    if i == |r| then (r, false) else (Put(r, i, m), true)
  }

  /** The parts of a write that does not get refused for its shape. */
  predicate Shaped(pid: nat, buffer: seq<byte>) {
    pid != 0 && |buffer| >= HEADER && U32At(buffer, 8) <= MAX_PAYLOAD && |buffer| >= HEADER + U32At(buffer, 8)
  }

  function Carried(pid: nat, buffer: seq<byte>): Msg
    requires Shaped(pid, buffer)
  {
    Msg(pid, U32At(buffer, 4), buffer[HEADER..HEADER + U32At(buffer, 8)])
  }

  /** Electing the server and registering the sender. */
  function Register(st: State, pid: nat): State {
    var st1 := if st.server == 0 then State(pid, Ensure(st.queues, pid)) else st;
    st1.(queues := Ensure(st1.queues, pid))
  }

  function Target(st: State, buffer: seq<byte>): nat
    requires |buffer| >= HEADER
  {
    if U32At(buffer, 0) == 0 then st.server else U32At(buffer, 0)
  }

  /** Address check and delivery for a registered sender. */
  function Deliver(st: State, pid: nat, buffer: seq<byte>): (State, int)
    requires Shaped(pid, buffer)
  {
    var dst := Target(st, buffer);
    if pid != st.server && dst != st.server then (st, -1)
    else
      var (qs, ok) := Post(st.queues, dst, Carried(pid, buffer));
      (st.(queues := qs), if ok then HEADER + U32At(buffer, 8) else -1)
  }

  /** One `write` by process `pid`: the new state and the value returned. */
  function Write(st: State, pid: nat, buffer: seq<byte>): (State, int) {
    if !Shaped(pid, buffer) then (st, -1) else Deliver(Register(st, pid), pid, buffer)
  }

  /** One `read` by process `pid`: the new state, the value returned and the bytes handed over. */
  function Read(st: State, pid: nat, size: nat): (State, int, seq<byte>)
    requires forall i :: 0 <= i < |st.queues| ==> AllWellFormed(st.queues[i].msgs)
  {
    if pid == 0 || size < HEADER then (st, -1, [])
    else
      var i := Find(st.queues, pid);
      if i == |st.queues| || st.queues[i].msgs == [] then (st, 0, [])
      else
        assert AllWellFormed(st.queues[i].msgs);
        var m := st.queues[i].msgs[0];
        if Size(m) > size then (st, -1, [])
        else (st.(queues := st.queues[i := Queue(pid, st.queues[i].msgs[1..])]), Size(m), Frame(m))
  }

  // ---- Messages as a process writes them ----

  /** Addressee, type, length and payload; what follows is ignored. */
  function Letter(dst: nat, kind: nat, payload: seq<byte>, extra: seq<byte>): seq<byte>
    requires dst < TWO32 && kind < TWO32 && |payload| < TWO32
  {
    U32(dst) + U32(kind) + U32(|payload|) + payload + extra
  }

  /** The process that gets what `pid` writes to `dst`: 0 stands for the server, and the first writer
      becomes the server. */
  function Addressee(st: State, pid: nat, dst: nat): nat {
    if dst != 0 then dst else if st.server == 0 then pid else st.server
  }

  lemma LetterFields(dst: nat, kind: nat, payload: seq<byte>, extra: seq<byte>)
    requires dst < TWO32 && kind < TWO32 && |payload| < TWO32
    ensures var b := Letter(dst, kind, payload, extra);
            && |b| == HEADER + |payload| + |extra| && b[HEADER..HEADER + |payload|] == payload
            && U32At(b, 0) == dst && U32At(b, 4) == kind && U32At(b, 8) == |payload|
  {
    var b := Letter(dst, kind, payload, extra);
    assert b[..4] == U32(dst) && b[4..8] == U32(kind) && b[8..12] == U32(|payload|);
    U32RoundTrip(dst);
    U32RoundTrip(kind);
    U32RoundTrip(|payload|);
  }

  /** A letter is accepted for its shape exactly when its payload has at most 256 bytes, and it carries
      its type and payload under the pid of its writer. */
  lemma LetterCarries(st: State, pid: nat, dst: nat, kind: nat, payload: seq<byte>, extra: seq<byte>)
    requires dst < TWO32 && kind < TWO32 && |payload| < TWO32
    ensures var b := Letter(dst, kind, payload, extra);
            && (Shaped(pid, b) <==> pid != 0 && |payload| <= 256)
            && (Shaped(pid, b) ==> Carried(pid, b) == Msg(pid, kind, payload)
                                   && Target(Register(st, pid), b) == Addressee(st, pid, dst))
  {
    LetterFields(dst, kind, payload, extra);
  }

  /** Whatever is accepted for its shape is a letter. */
  lemma ShapedIsLetter(pid: nat, buffer: seq<byte>) returns (dst: nat, kind: nat, payload: seq<byte>, extra: seq<byte>)
    requires Shaped(pid, buffer)
    ensures dst < TWO32 && kind < TWO32 && |payload| <= 256 && buffer == Letter(dst, kind, payload, extra)
  {
    var n := HEADER + U32At(buffer, 8);
    dst, kind, payload, extra := U32At(buffer, 0), U32At(buffer, 4), buffer[HEADER..n], buffer[n..];
    U32Back(buffer, 0);
    U32Back(buffer, 4);
    U32Back(buffer, 8);
    assert buffer == buffer[0..4] + buffer[4..8] + buffer[8..12] + buffer[HEADER..n] + buffer[n..];
  }

  // ---- Reachable states ----

  predicate QueueOk(server: nat, q: Queue) {
    && AllWellFormed(q.msgs) && Total(q.msgs) <= RING_BYTES - 1
    && (q.pid == 0 ==> q.msgs == [])
    && (q.pid != server ==> forall k :: 0 <= k < |q.msgs| ==> q.msgs[k].src == server)
  }

  predicate Inv(st: State) {
    && (forall i :: 0 <= i < |st.queues| ==> QueueOk(st.server, st.queues[i]))
    && (st.server == 0 ==> forall i :: 0 <= i < |st.queues| ==> st.queues[i].pid == 0)
    && (st.server != 0 && st.queues != [] ==> Find(st.queues, st.server) < |st.queues|)
  }

  function Boot(slots: nat): State {
    State(0, seq(slots, _ => Queue(0, [])))
  }

  lemma {:induction false} EnsureFinds(qs: seq<Queue>, pid: nat, other: nat)
    requires pid != 0
    ensures Find(qs, pid) < |qs| || Find(qs, 0) < |qs| ==> Find(Ensure(qs, pid), pid) < |qs|
    ensures other != 0 && Find(qs, other) < |qs| ==> Find(Ensure(qs, pid), other) < |qs|
  {
    var r := Ensure(qs, pid);
    if Find(qs, pid) == |qs| && Find(qs, 0) < |qs| {
      assert r[Find(qs, 0)].pid == pid;
      if other != 0 && Find(qs, other) < |qs| {
        assert r[Find(qs, other)].pid == other;
      }
    }
  }

  /** A process without a slot is found where the first free slot was. */
  lemma {:induction false} ClaimFinds(qs: seq<Queue>, pid: nat)
    requires Find(qs, pid) == |qs| && Find(qs, 0) < |qs|
    ensures Find(Ensure(qs, pid), pid) == Find(qs, 0)
  {
    assert Ensure(qs, pid)[Find(qs, 0)].pid == pid;
  }

  lemma EnsureKeepsInv(st: State, pid: nat)
    requires Inv(st) && pid != 0 && st.server != 0
    ensures Inv(st.(queues := Ensure(st.queues, pid)))
  {
    EnsureFinds(st.queues, pid, st.server);
  }

  lemma RegisterKeepsInv(st: State, pid: nat)
    requires Inv(st) && pid != 0
    ensures Inv(Register(st, pid)) && Register(st, pid).server != 0
    ensures Register(st, pid).server == if st.server == 0 then pid else st.server
  {
    if st.server == 0 {
      var st1 := State(pid, Ensure(st.queues, pid));
      assert st.queues != [] ==> st.queues[0].pid == 0;
      EnsureFinds(st.queues, pid, pid);
      assert Inv(st1);
      EnsureKeepsInv(st1, pid);
    } else {
      EnsureKeepsInv(st, pid);
    }
  }

  lemma RegisterElects(st: State, pid: nat)
    requires pid != 0
    ensures Register(st, pid).server != 0
  {
  }

  lemma EnqueueOk(server: nat, q: Queue, m: Msg)
    requires QueueOk(server, q) && WellFormed(m) && q.pid != 0
    requires q.pid == server || m.src == server
    ensures QueueOk(server, q.(msgs := Enqueue(q.msgs, m)))
  {
    var k := EvictKeepsLongestSuffix(q.msgs, Size(m));
    FlatSnoc(q.msgs[k..], m);
  }

  lemma PutKeepsInv(st: State, i: nat, m: Msg)
    requires Inv(st) && i < |st.queues| && st.queues[i].pid != 0 && WellFormed(m)
    requires st.queues[i].pid == st.server || m.src == st.server
    ensures Inv(st.(queues := Put(st.queues, i, m)))
  {
    EnqueueOk(st.server, st.queues[i], m);
    var r := Put(st.queues, i, m);
    if st.server != 0 {
      assert r[Find(st.queues, st.server)].pid == st.server;
    }
  }

  lemma WriteKeepsInv(st: State, pid: nat, buffer: seq<byte>)
    requires Inv(st) && pid < TWO32
    ensures Inv(Write(st, pid, buffer).0)
  {
    if Shaped(pid, buffer) {
      RegisterKeepsInv(st, pid);
      var st1 := Register(st, pid);
      var dst := Target(st1, buffer);
      if pid == st1.server || dst == st1.server {
        EnsureKeepsInv(st1, dst);
        var st2 := st1.(queues := Ensure(st1.queues, dst));
        var i := Find(st2.queues, dst);
        if i < |st2.queues| {
          PutKeepsInv(st2, i, Carried(pid, buffer));
        }
      }
    }
  }

  lemma ReadKeepsInv(st: State, pid: nat, size: nat)
    requires Inv(st)
    ensures Inv(Read(st, pid, size).0)
  {
    var i := Find(st.queues, pid);
    var r := Read(st, pid, size).0;
    if r != st {
      assert st.queues[i].msgs == [st.queues[i].msgs[0]] + st.queues[i].msgs[1..];
      if st.server != 0 {
        assert r.queues[Find(st.queues, st.server)].pid == st.server;
      }
    }
  }

  // ---- Whole runs ----

  datatype Call = WriteCall(pid: nat, buffer: seq<byte>) | ReadCall(pid: nat, size: nat)

  predicate PidsOk(calls: seq<Call>) {
    forall i :: 0 <= i < |calls| ==> calls[i].pid < TWO32
  }

  function Step(st: State, c: Call): State
    requires Inv(st)
  {
    match c
    case WriteCall(pid, buffer) => Write(st, pid, buffer).0
    case ReadCall(pid, size) => Read(st, pid, size).0
  }

  /** The states a run passes through, starting with `st`. */
  ghost predicate Runs(st: State, calls: seq<Call>, end: State)
    decreases |calls|
  {
    if calls == [] then end == st else Inv(st) && Runs(Step(st, calls[0]), calls[1..], end)
  }

  /** Every run from boot can go on, keeps the invariant, and in particular leaves only messages
      from the server in the queues of all other processes. */
  lemma {:induction false} EveryRunKeepsInv(st: State, calls: seq<Call>) returns (end: State)
    requires Inv(st) && PidsOk(calls)
    ensures Runs(st, calls, end) && Inv(end)
    decreases |calls|
  {
    if calls == [] {
      end := st;
    } else {
      match calls[0] {
        case WriteCall(pid, buffer) => WriteKeepsInv(st, pid, buffer);
        case ReadCall(pid, size) => ReadKeepsInv(st, pid, size);
      }
      end := EveryRunKeepsInv(Step(st, calls[0]), calls[1..]);
    }
  }

  lemma BootInv(slots: nat)
    ensures Inv(Boot(slots))
  {
  }

  /** A process other than the server reads only frames the server sent. */
  lemma ClientsHearOnlyTheServer(st: State, pid: nat, size: nat)
    requires Inv(st) && pid != st.server
    requires Read(st, pid, size).1 > 0
    ensures U32At(Read(st, pid, size).2, 0) == st.server
  {
    var m := st.queues[Find(st.queues, pid)].msgs[0];
    HeaderFields(m, m.payload);
  }

  /** A letter is taken exactly when its payload has at most 256 bytes, its writer is the server or
      addresses it, and the addressee has an endpoint or one is free; then writer, type and payload are
      the newest message of the addressee.  Otherwise -1 is returned. */
  lemma WriteSucceedsIff(st: State, pid: nat, dst: nat, kind: nat, payload: seq<byte>, extra: seq<byte>)
    requires Inv(st) && dst < TWO32 && kind < TWO32 && |payload| < TWO32
    ensures var b := Letter(dst, kind, payload, extra);
            var (r, res) := Write(st, pid, b);
            var server, to := if st.server == 0 then pid else st.server, Addressee(st, pid, dst);
            var qs := Register(st, pid).queues;
            && (res != -1 <==>
                && pid != 0 && |payload| <= 256 && (pid == server || to == server)
                && (Find(qs, to) < |qs| || Find(qs, 0) < |qs|))
            && (res != -1 ==> res == 12 + |payload| && Newest(r.queues, to, Msg(pid, kind, payload)))
  {
    var b := Letter(dst, kind, payload, extra);
    LetterCarries(st, pid, dst, kind, payload, extra);
    LetterFields(dst, kind, payload, extra);
    if pid != 0 {
      RegisterKeepsInv(st, pid);
    }
    if Shaped(pid, b) {
      DeliveredIff(st, pid, b);
    }
  }

  /** The newest message of process `p`. */
  predicate Newest(qs: seq<Queue>, p: nat, m: Msg) {
    exists i :: 0 <= i < |qs| && qs[i].pid == p && qs[i].msgs != [] && qs[i].msgs[|qs[i].msgs| - 1] == m
  }

  lemma DeliveredIff(st: State, pid: nat, buffer: seq<byte>)
    requires Inv(st) && Shaped(pid, buffer)
    ensures var st1 := Register(st, pid);
            var dst := Target(st1, buffer);
            && (Write(st, pid, buffer).1 >= 0 <==>
                (pid == st1.server || dst == st1.server)
                && (Find(st1.queues, dst) < |st1.queues| || Find(st1.queues, 0) < |st1.queues|))
            && (Write(st, pid, buffer).1 >= 0 ==> Newest(Write(st, pid, buffer).0.queues, dst, Carried(pid, buffer)))
  {
    RegisterKeepsInv(st, pid);
    var st1 := Register(st, pid);
    var dst := Target(st1, buffer);
    EnsureFinds(st1.queues, dst, dst);
    if Write(st, pid, buffer).1 >= 0 {
      var qs := Ensure(st1.queues, dst);
      var i := Find(qs, dst);
      var r := Write(st, pid, buffer).0.queues;
      assert r[i].pid == dst && r[i].msgs == Enqueue(qs[i].msgs, Carried(pid, buffer));
    }
  }

  /** Once some slot exists, a client's letter to the server is never refused. */
  lemma ServerAlwaysReachable(st: State, pid: nat, kind: nat, payload: seq<byte>, extra: seq<byte>)
    requires Inv(st) && st.queues != [] && pid != 0 && kind < TWO32 && |payload| <= 256
    ensures Write(st, pid, Letter(0, kind, payload, extra)).1 == 12 + |payload|
  {
    RegisterKeepsInv(st, pid);
    WriteSucceedsIff(st, pid, 0, kind, payload, extra);
  }
}
