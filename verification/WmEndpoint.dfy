/** One endpoint of /dev/wm: a byte ring with read and write positions that holds whole frames. */
module WmEndpoint {
  import opened Bytes
  import opened Ring
  import opened WmQueueSpec

  class Endpoint {
    var pid: nat
    const q: array<byte>
    var r: nat
    var w: nat
    /** The messages whose frames are in the ring, oldest first. */
    ghost var msgs: seq<Msg>

    ghost predicate RingOk()
      reads this
    {
      q.Length == RING_BYTES && r < RING_BYTES && w < RING_BYTES
    }

    ghost predicate Valid()
      reads this, q
    {
      RingOk() && AllWellFormed(msgs) && Contents() == Flat(msgs)
    }

    constructor ()
      ensures Valid() && fresh(q) && pid == 0 && msgs == []
    {
      pid, r, w, msgs := 0, 0, 0, [];
      q := new byte[RING_BYTES];
    }

    /** The unread bytes in order. */
    ghost function Contents(): (s: seq<byte>)
      requires RingOk()
      reads this, q
      ensures |s| == Used()
    {
      Unread(q[..], r, w)
    }

    function Used(): (n: nat)
      requires RingOk()
      reads this
    {
      Distance(r, w, RING_BYTES)
    }

    /** One byte always stays empty to tell a full ring from an empty one. */
    function Free(): nat
      requires RingOk()
      reads this
    {
      RING_BYTES - 1 - Used()
    }

    /** Gives a free slot to a process: positions back to the start, buffer cleared. */
    method Claim(pid: nat)
      requires RingOk()
      modifies this, q
      ensures Valid() && this.pid == pid && msgs == []
    {
      this.pid, r, w, msgs := pid, 0, 0, [];
      forall i | 0 <= i < q.Length {
        q[i] := 0;
      }
    }

    /** Writes bytes that fit in front of the end of the buffer. */
    method Put(src: seq<byte>)
      requires RingOk() && |src| <= Free() && w + |src| <= RING_BYTES
      modifies this`w, q
      ensures RingOk() && Contents() == old(Contents()) + src && w == Wrap(old(w) + |src|, RING_BYTES)
    {
      forall i | 0 <= i < |src| {
        q[w + i] := src[i];
      }
      assert q[..] == old(q[..])[..w] + src + old(q[..])[w + |src|..];
      UnreadPut(old(q[..]), q[..], r, w, src);
      w := (w + |src|) % RING_BYTES;
    }

    /** `q_write` */
    method Write(src: seq<byte>)
      requires RingOk() && |src| <= Free()
      modifies this`w, q
      ensures RingOk() && Contents() == old(Contents()) + src
    {
      var end := RING_BYTES - w;
      if |src| <= end {
        Put(src);
      } else {
        Put(src[..end]);
        Put(src[end..]);
        assert src == src[..end] + src[end..];
      }
    }

    /** The first `n` unread bytes, copied in one or two pieces. */
    method Copy(n: nat) returns (dst: seq<byte>)
      requires RingOk() && n <= Used()
      ensures dst == Contents()[..n]
    {
      UnreadFront(q[..], r, w, n);
      var end := RING_BYTES - r;
      if n <= end {
        dst := q[r..r + n];
      } else {
        dst := q[r..] + q[..n - end];
      }
    }

    /** `q_read` */
    method Read(n: nat) returns (dst: seq<byte>)
      requires RingOk() && n <= Used()
      modifies this`r
      ensures RingOk() && dst == old(Contents())[..n] && Contents() == old(Contents())[n..]
    {
      dst := Copy(n);
      UnreadDrop(q[..], r, w, n);
      var end := RING_BYTES - r;
      if n <= end {
        r := (r + n) % RING_BYTES;
      } else {
        r := n - end;
      }
    }

    /** `q_peek` */
    method Peek(n: nat) returns (ok: bool, dst: seq<byte>)
      requires RingOk()
      ensures ok <==> n <= Used()
      ensures ok ==> dst == Contents()[..n]
    {
      if Used() < n {
        return false, [];
      }
      dst := Copy(n);
      ok := true;
    }

    /** Reads and forgets `n` bytes, 64 at a time. */
    method Discard(n: nat)
      requires RingOk() && n <= Used()
      modifies this`r
      ensures RingOk() && Contents() == old(Contents())[n..]
    {
      var left := n;
      while left > 0
        invariant 0 <= left <= n && RingOk() && Contents() == old(Contents())[n - left..]
      {
        var chunk := if left > 64 then 64 else left;
        var _ := Read(chunk);
        left := left - chunk;
      }
    }

    /** The header in front of a non-empty ring is that of the oldest message. */
    lemma FrontHeader()
      requires Valid() && msgs != []
      ensures Used() >= Size(msgs[0])
      ensures var h := Contents()[..HEADER];
              U32At(h, 0) == msgs[0].src && U32At(h, 4) == msgs[0].kind && U32At(h, 8) == |msgs[0].payload|
      ensures Contents()[..Size(msgs[0])] == Frame(msgs[0])
      ensures Contents()[Size(msgs[0])..] == Flat(msgs[1..])
    {
      HeaderFields(msgs[0], []);
      assert Contents()[..HEADER] == Header(msgs[0]) + [];
    }

    /** Discards the frame in front.  The ring never holds a frame so broken that it would have
        to be reset. */
    method DropOldest()
      requires Valid() && msgs != []
      modifies this`r, this`msgs
      ensures Valid() && msgs == old(msgs)[1..]
    {
      FrontHeader();
      var ok, hdr := Peek(HEADER);
      if !ok {
        assert false;
      }
      var oldTotal := HEADER + U32At(hdr, 8);
      if oldTotal == 0 || oldTotal > RING_BYTES - 1 {
        assert false;
      }
      Discard(oldTotal);
      msgs := msgs[1..];
    }

    /** Drops the oldest messages until `total` bytes are free. */
    method MakeRoom(total: nat)
      requires Valid() && total <= RING_BYTES - 1
      modifies this`r, this`msgs
      ensures Valid() && msgs == Evict(old(msgs), total) && total <= Free()
    {
      while Free() < total && Used() >= HEADER
        invariant Valid() && Evict(msgs, total) == Evict(old(msgs), total)
        decreases |msgs|
      {
        DropOldest();
      }
    }

    /** The part of `enqueue_msg` behind the endpoint lookup.  Its out-of-space answer is
        impossible, so it returns nothing. */
    method Enqueue(src: nat, kind: nat, payload: seq<byte>)
      requires Valid() && WellFormed(Msg(src, kind, payload))
      modifies this`r, this`w, this`msgs, q
      ensures Valid() && msgs == WmQueueSpec.Enqueue(old(msgs), Msg(src, kind, payload))
    {
      ghost var m := Msg(src, kind, payload);
      var hdr := U32(src) + U32(kind) + U32(|payload|);
      var total := HEADER + |payload|;
      if Free() < total {
        MakeRoom(total);
        if Free() < total {
          assert false;
        }
      }
      Append(m, hdr, payload);
    }

    /** Writes header and payload of a message for which there is room. */
    method Append(ghost m: Msg, hdr: seq<byte>, payload: seq<byte>)
      requires Valid() && WellFormed(m) && Size(m) <= Free()
      requires hdr == Header(m) && payload == m.payload
      modifies this`w, this`msgs, q
      ensures Valid() && msgs == old(msgs) + [m]
    {
      ghost var s := Contents();
      Write(hdr);
      if |payload| > 0 {
        Write(payload);
      }
      assert Contents() == s + Frame(m);
      FlatSnoc(msgs, m);
      msgs := msgs + [m];
    }

    /** The device read behind the endpoint lookup: takes the oldest message out when it fits
        into `size` bytes. */
    method Dequeue(size: nat) returns (res: int, buffer: seq<byte>)
      requires Valid() && size >= HEADER
      modifies this`r, this`msgs
      ensures Valid()
      ensures old(msgs) == [] ==> res == 0 && msgs == old(msgs) && buffer == []
      ensures old(msgs) != [] && Size(old(msgs)[0]) > size ==> res == -1 && msgs == old(msgs) && buffer == []
      ensures old(msgs) != [] && Size(old(msgs)[0]) <= size ==>
                res == Size(old(msgs)[0]) && buffer == Frame(old(msgs)[0]) && msgs == old(msgs)[1..]
    {
      buffer := [];
      if Used() == 0 {
        return 0, [];
      }
      FrontHeader();
      var ok, hdr := Peek(HEADER);
      if !ok {
        assert false;
      }
      var total := HEADER + U32At(hdr, 8);
      if U32At(hdr, 8) > MAX_PAYLOAD || total > size {
        return -1, [];
      }
      buffer := TakeFront(U32At(hdr, 8));
      res := total;
    }

    /** Reads the oldest message, header first. */
    method TakeFront(len: nat) returns (buffer: seq<byte>)
      requires Valid() && msgs != [] && len == |msgs[0].payload|
      modifies this`r, this`msgs
      ensures Valid() && msgs == old(msgs)[1..] && buffer == Frame(old(msgs)[0])
    {
      FrontHeader();
      ghost var s := Contents();
      buffer := Read(HEADER);
      if len > 0 {
        var body := Read(len);
        assert body == s[HEADER..HEADER + len];
        buffer := buffer + body;
      }
      assert buffer == s[..HEADER + len];
      msgs := msgs[1..];
    }
  }
}
