/** The endpoint table of /dev/wm and its read and write operations on real rings,
    refined to `WmDeviceSpec`. */
module WmDevice {
  import opened Arithmetic
  import opened Bytes
  import opened WmQueueSpec
  import Spec = WmDeviceSpec
  import opened WmEndpoint

  const ENDPOINTS := 32

  class Device {
    const eps: seq<Endpoint>
    var serverPid: nat

    ghost predicate Apart()
      reads this
    {
      && |eps| == ENDPOINTS
      && forall i, j :: 0 <= i < j < |eps| ==> eps[i] != eps[j] && eps[i].q != eps[j].q
    }

    ghost function Rings(): set<object> {
      set i | 0 <= i < |eps| :: eps[i].q
    }

    ghost predicate Valid()
      reads this, eps, Rings()
    {
      Apart() && forall i :: 0 <= i < |eps| ==> eps[i].Valid()
    }

    ghost function View(): (st: Spec.State)
      reads this, eps
    {
      Spec.State(serverPid, seq(|eps|, i requires 0 <= i < |eps| reads eps => Spec.Queue(eps[i].pid, eps[i].msgs)))
    }

    constructor ()
      ensures Valid() && View() == Spec.Boot(ENDPOINTS)
      ensures fresh(eps) && fresh(Rings())
    {
      serverPid := 0;
      var table: seq<Endpoint> := [];
      while |table| < ENDPOINTS
        invariant |table| <= ENDPOINTS
        invariant forall i :: 0 <= i < |table| ==>
                    fresh(table[i]) && fresh(table[i].q) && table[i].Valid() && table[i].pid == 0 && table[i].msgs == []
        invariant forall i, j :: 0 <= i < j < |table| ==> table[i] != table[j] && table[i].q != table[j].q
      {
        var e := new Endpoint();
        table := table + [e];
      }
      eps := table;
    }

    /** `find_ep`; the table size stands for NULL. */
    method FindEp(pid: nat) returns (i: nat)
      ensures i == Spec.Find(View().queues, pid)
    {
      i := 0;
      while i < |eps|
        invariant 0 <= i <= |eps|
        invariant forall j :: 0 <= j < i ==> eps[j].pid != pid
      {
        if eps[i].pid == pid {
          assert View().queues[i].pid == pid;
          assert forall j :: 0 <= j < i ==> View().queues[j].pid != pid;
          return;
        }
        i := i + 1;
      }
    }

    /** Only slot `i` changed, so the others are as they were. */
    twostate lemma OneSlot(i: nat)
      requires old(Valid()) && i < |eps| && eps[i].Valid() && serverPid == old(serverPid)
      requires forall j :: 0 <= j < |eps| && j != i ==> unchanged(eps[j]) && unchanged(eps[j].q)
      ensures Valid()
      ensures View() == old(View()).(queues := old(View()).queues[i := Spec.Queue(eps[i].pid, eps[i].msgs)])
    {
    }

    method ClaimSlot(i: nat, pid: nat)
      requires Valid() && i < |eps|
      modifies eps[i], eps[i].q
      ensures Valid() && View() == old(View()).(queues := old(View()).queues[i := Spec.Queue(pid, [])])
    {
      eps[i].Claim(pid);
      OneSlot(i);
    }

    method EnqueueAt(i: nat, src: nat, kind: nat, payload: seq<byte>)
      requires Valid() && i < |eps| && WellFormed(Msg(src, kind, payload))
      modifies eps[i], eps[i].q
      ensures Valid()
      ensures View() == old(View()).(queues := Spec.Put(old(View()).queues, i, Msg(src, kind, payload)))
    {
      eps[i].Enqueue(src, kind, payload);
      OneSlot(i);
    }

    method DequeueAt(i: nat, size: nat) returns (res: int, buffer: seq<byte>)
      requires Valid() && i < |eps| && size >= HEADER
      modifies eps[i]
      ensures Valid()
      ensures var q := old(View()).queues[i];
              if q.msgs == [] then View() == old(View()) && res == 0 && buffer == []
              else if Size(q.msgs[0]) > size then View() == old(View()) && res == -1 && buffer == []
              else
                && res == Size(q.msgs[0]) && WellFormed(q.msgs[0]) && buffer == Frame(q.msgs[0])
                && View() == old(View()).(queues := old(View()).queues[i := q.(msgs := q.msgs[1..])])
    {
      res, buffer := eps[i].Dequeue(size);
      OneSlot(i);
    }

    /** `ensure_ep` */
    method EnsureEp(pid: nat) returns (i: nat)
      requires Valid() && pid != 0
      modifies eps, Rings()
      ensures Valid() && View() == old(View()).(queues := Spec.Ensure(old(View()).queues, pid))
      ensures i == Spec.Find(View().queues, pid)
    {
      i := FindEp(pid);
      if i < |eps| {
        return;
      }
      i := FindEp(0);
      if i < |eps| {
        Spec.ClaimFinds(View().queues, pid);
        ClaimSlot(i, pid);
      }
    }

    /** `enqueue_msg` */
    method EnqueueMsg(dst: nat, src: nat, kind: nat, payload: seq<byte>) returns (ok: bool)
      requires Valid() && dst != 0 && src < TWO32 && kind < TWO32
      modifies eps, Rings()
      ensures Valid()
      ensures |payload| > MAX_PAYLOAD ==> !ok && View() == old(View())
      ensures |payload| <= MAX_PAYLOAD ==>
                var (qs, posted) := Spec.Post(old(View()).queues, dst, Msg(src, kind, payload));
                ok == posted && View() == old(View()).(queues := qs)
    {
      if |payload| > MAX_PAYLOAD {
        return false;
      }
      var i := EnsureEp(dst);
      if i == |eps| {
        return false;
      }
      EnqueueAt(i, src, kind, payload);
      ok := true;
    }

    /** `dev_wm_read` by process `pid` (0 when no process runs). */
    method Read(pid: nat, size: nat) returns (res: int, buffer: seq<byte>)
      requires Valid()
      modifies eps
      ensures Valid()
      ensures (View(), res, buffer) == Spec.Read(old(View()), pid, size)
    {
      if pid == 0 || size < HEADER {
        return -1, [];
      }
      var i := FindEp(pid);
      if i == |eps| {
        return 0, [];
      }
      res, buffer := DequeueAt(i, size);
    }

    method BecomeServer(pid: nat)
      requires Valid()
      modifies this`serverPid
      ensures Valid() && serverPid == pid && View() == old(View()).(server := pid)
    {
      serverPid := pid;
    }

    /** Electing the server and registering the sender. */
    method Register(pid: nat)
      requires Valid() && pid != 0
      modifies this, eps, Rings()
      ensures Valid() && View() == Spec.Register(old(View()), pid)
    {
      if serverPid == 0 {
        BecomeServer(pid);
        var _ := EnsureEp(serverPid);
      }
      var _ := EnsureEp(pid);
    }

    /** `dev_wm_write` by process `pid` (0 when no process runs). */
    method Write(pid: nat, buffer: seq<byte>) returns (res: int)
      requires Valid() && pid < TWO32
      modifies this, eps, Rings()
      ensures Valid()
      ensures (View(), res) == Spec.Write(old(View()), pid, buffer)
    {
      if pid == 0 || |buffer| < HEADER {
        return -1;
      }
      var len := U32At(buffer, 8);
      if len > MAX_PAYLOAD {
        return -1;
      }
      var total := HEADER + len;
      if |buffer| < total {
        return -1;
      }
      Register(pid);
      Spec.RegisterElects(old(View()), pid);
      res := Deliver(pid, buffer, total);
    }

    /** Address check and delivery for a registered sender. */
    method Deliver(pid: nat, buffer: seq<byte>, total: nat) returns (res: int)
      requires Valid() && pid < TWO32 && serverPid != 0
      requires Spec.Shaped(pid, buffer) && total == HEADER + U32At(buffer, 8)
      modifies eps, Rings()
      ensures Valid()
      ensures (View(), res) == Spec.Deliver(old(View()), pid, buffer)
    {
      var dst := U32At(buffer, 0);
      if dst == 0 {
        dst := serverPid;
      }
      ghost var m := Msg(pid, U32At(buffer, 4), buffer[HEADER..total]);
      DeliverIs(View(), pid, buffer, dst, m);
      if pid != serverPid && dst != serverPid {
        return -1;
      }
      var ok := EnqueueMsg(dst, pid, U32At(buffer, 4), buffer[HEADER..total]);
      res := if ok then total else -1;
    }

    lemma DeliverIs(st: Spec.State, pid: nat, buffer: seq<byte>, dst: nat, m: Msg)
      requires Spec.Shaped(pid, buffer) && dst == Spec.Target(st, buffer) && m == Spec.Carried(pid, buffer)
      ensures |m.payload| <= MAX_PAYLOAD
      ensures Spec.Deliver(st, pid, buffer) ==
              if pid != st.server && dst != st.server then (st, -1)
              else
                var (qs, ok) := Spec.Post(st.queues, dst, m);
                (st.(queues := qs), if ok then HEADER + U32At(buffer, 8) else -1)
    {
    }
  }
}
