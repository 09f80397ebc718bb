/** `kmalloc` and friends: the block list on a fixed range of kernel memory. */
module KernelHeap {
  import opened Arithmetic
  import opened HeapSpec
  import opened Heap

  const HEAP_BEGIN := 0xC040_0000
  const HEAP_END := 0xC040_0000 + 0x1E0_0000

  const MAX_REQUEST := 0x3000_0000
  const MAX_ALIGN := 0x100_0000

  ghost predicate Inside(bs: seq<Block>) {
    forall i :: 0 <= i < |bs| ==> HEAP_BEGIN <= bs[i].addr && Limit(bs[i]) <= HEAP_END
  }

  /** The list an allocation starts from. */
  ghost function Started(bs: seq<Block>): seq<Block> {
    if bs == [] then [Block(HEAP_BEGIN, 0, true)] else bs
  }

  /** No free block suits, and the end of a new one, computed in 32 bits, is behind the heap. */
  ghost predicate Exhausted(bs: seq<Block>, size: nat, align: nat)
    requires bs != [] && align > 0
  {
    FindFrom(bs, size, align, 0) == |bs| && NewEnd32(bs, size, align) > HEAP_END
  }

  /** The end-of-heap test does not pass by wrapping around. */
  ghost predicate Fits32(bs: seq<Block>, size: nat, align: nat)
    requires bs != [] && align > 0
  {
    || FindFrom(bs, size, align, 0) < |bs|
    || NewEnd32(bs, size, align) > HEAP_END
    || NewEnd(bs, size, align) < TWO32
  }

  /** Requests up to `MAX_REQUEST` with an alignment up to `MAX_ALIGN` never make it wrap. */
  lemma ModestRequestsFit(bs: seq<Block>, size: nat, align: nat)
    requires bs != [] && Inside(bs) && 0 < align <= MAX_ALIGN && size <= MAX_REQUEST
    ensures Fits32(bs, Round32(size), align)
  {
    var top := bs[|bs| - 1];
    assert Limit(top) <= HEAP_END;
    RoundingIff(size);
  }

  lemma {:induction false} InsideIsBelow(bs: seq<Block>)
    requires WellFormed(bs) && bs[0].addr >= HEAP_BEGIN
    ensures Inside(bs) <==> Below(bs, HEAP_END)
  {
  }

  /** When no block suits and the end-of-heap test passes, the block handed out lies inside the heap
      exactly when the sum that was tested did not wrap around. */
  lemma {:induction false} EndTestIff(bs: seq<Block>, size: nat, align: nat)
    requires WellFormed(bs) && Inside(bs) && align > 0 && align % 4 == 0 && size % 4 == 0
    requires FindFrom(bs, size, align, 0) == |bs| && NewEnd32(bs, size, align) <= HEAP_END
    ensures Inside(Alloc(bs, size, align).0) <==> NewEnd(bs, size, align) < TWO32
  {
    AllocWellFormed(bs, size, align);
    InsideIsBelow(bs);
    InsideIsBelow(Alloc(bs, size, align).0);
    AllocBelowIff(bs, size, align, HEAP_END);
    WrappedTestIff(bs, size, align, HEAP_END);
  }

  /** The kernel stops exactly when the block would leave the heap, if and only if the test does not pass
      by wrapping around. */
  lemma {:induction false} StopsRightlyIff(bs: seq<Block>, size: nat, align: nat)
    requires WellFormed(bs) && Inside(bs) && align > 0 && align % 4 == 0 && size % 4 == 0
    ensures Fits32(bs, size, align) <==> (Exhausted(bs, size, align) <==> !Inside(Alloc(bs, size, align).0))
  {
    AllocWellFormed(bs, size, align);
    InsideIsBelow(bs);
    InsideIsBelow(Alloc(bs, size, align).0);
    AllocBelowIff(bs, size, align, HEAP_END);
    NewEnd32Iff(bs, size, align);
  }

  /** On a fresh heap a request of 1 GiB passes the test by wrapping around once, and a huge request
      with a huge alignment by wrapping around twice; both blocks leave the heap. */
  lemma HugeRequestsLeaveTheHeap()
    ensures Leaves(Started([]), 0x4000_0000, MIN_ALIGN)
    ensures Leaves(Started([]), 0xF000_0000, 0xC000_0000)
  {
    var bs := Started([]);
    assert End(bs[0]) == 0xC040_000C;
    assert NewAddr(bs[0], MIN_ALIGN) == 0xC040_000C;
    assert NewAddr(bs[0], 0xC000_0000) == 0x1_8000_0000 - HEADER;
    assert NewEnd(bs, 0x4000_0000, MIN_ALIGN) == TWO32 + 0x40_0014;
    assert NewEnd(bs, 0xF000_0000, 0xC000_0000) == 2 * TWO32 + 0x7000_0000;
    assert NewEnd32(bs, 0x4000_0000, MIN_ALIGN) == 0x40_0014;
    assert NewEnd32(bs, 0xF000_0000, 0xC000_0000) == 0x7000_0000;
    EndTestIff(bs, 0x4000_0000, MIN_ALIGN);
    EndTestIff(bs, 0xF000_0000, 0xC000_0000);
  }

  /** The test passes, and the block handed out is not inside the heap. */
  ghost predicate Leaves(bs: seq<Block>, size: nat, align: nat)
    requires bs != [] && align > 0 && align % 4 == 0
  {
    && FindFrom(bs, size, align, 0) == |bs| && NewEnd32(bs, size, align) <= HEAP_END
    && !Inside(Alloc(bs, size, align).0)
  }

  lemma {:induction false} AllocInside(bs: seq<Block>, size: nat, align: nat)
    requires WellFormed(bs) && Inside(bs) && align > 0 && align % 4 == 0 && size % 4 == 0
    requires FindFrom(bs, size, align, 0) < |bs| || NewEnd(bs, size, align) <= HEAP_END
    ensures Inside(Alloc(bs, size, align).0)
  {
    var top := bs[|bs| - 1];
    if FindFrom(bs, size, align, 0) == |bs| {
      NewAddrAligned(top, align);
      FillerBridges(top, NewAddr(top, align));
    }
  }

  lemma {:induction false} AllocAccounts(bs: seq<Block>, size: nat, align: nat)
    requires WellFormed(bs) && align > 0 && align % 4 == 0 && size % 4 == 0
    ensures var (r, i) := Alloc(bs, size, align);
            i < |r| && UsedBytes(r) == UsedBytes(bs) + r[i].size
  {
    var i := FindFrom(bs, size, align, 0);
    if i < |bs| {
      UsedBytesUpdate(bs, i, true);
    } else {
      UsedBytesExtend(bs, size, align);
    }
  }

  /** Handing out a free block or taking back a used one keeps every block inside the heap and moves its
      size on or off the account. */
  lemma {:induction false} FlagFacts(bs: seq<Block>, i: nat, used: bool)
    requires i < |bs| && Inside(bs) && bs[i].used != used
    ensures var r := bs[i := bs[i].(used := used)];
            && Inside(r)
            && UsedBytes(r) == (if used then UsedBytes(bs) + bs[i].size else UsedBytes(bs) - bs[i].size)
  {
    UsedBytesUpdate(bs, i, used);
    var r := bs[i := bs[i].(used := used)];
    assert forall j :: 0 <= j < |bs| ==> r[j].addr == bs[j].addr && r[j].size == bs[j].size;
  }

  class Allocator {
    const list: BlockList
    var usedMemory: nat

    ghost predicate Valid()
      reads this, list
    {
      && list.Valid() && Inside(list.blocks)
      && usedMemory == UsedBytes(list.blocks)
    }

    constructor ()
      ensures Valid() && list.blocks == [] && fresh(list)
    {
      list := new BlockList();
      usedMemory := 0;
    }

    /** The first call lays down an empty used block to avoid edge cases. */
    method Setup()
      requires Valid()
      modifies list
      ensures Valid() && list.blocks == Started(old(list.blocks))
      ensures old(list.blocks) != [] ==> list.memory == old(list.memory)
    {
      if list.top == 0 {
        list.Start(HEAP_BEGIN);
        assert list.blocks[..0] == [];
      }
    }

    /** Hands out a free block. */
    method Reuse(block: nat, ghost i: nat, ghost wanted: nat, ghost align: nat)
      requires Valid() && align > 0 && align % 4 == 0 && wanted % 4 == 0 && list.blocks != []
      requires i == FindFrom(list.blocks, wanted, align, 0) < |list.blocks| && block == list.blocks[i].addr
      modifies this, list
      ensures Valid() && (list.blocks, i) == Alloc(old(list.blocks), wanted, align)
      ensures PayloadsKept(old(list.memory), list.memory, old(list.blocks))
    {
      FlagFacts(list.blocks, i, true);
      var size := FieldOf(block, i);
      list.Mark(block, true, i);
      usedMemory := usedMemory + size;
    }

    /** The size field of a block in memory. */
    method FieldOf(block: nat, ghost i: nat) returns (field: nat)
      requires list.Valid() && i < |list.blocks| && block == list.blocks[i].addr
      ensures field == SizeField(list.blocks[i])
    {
      assert HeaderOk(list.memory, list.blocks, i);
      field := Word(list.memory, block + 4);
    }

    /** Puts a new block behind the top one, if the heap reaches that far. */
    method Grow(size: nat, align: nat) returns (halted: bool, block: nat)
      requires Valid() && align > 0 && align % 4 == 0 && size % 4 == 0 && list.blocks != []
      requires FindFrom(list.blocks, size, align, 0) == |list.blocks|
      requires Fits32(list.blocks, size, align)
      modifies this, list
      ensures Valid()
      ensures halted <==> NewEnd32(old(list.blocks), size, align) > HEAP_END
      ensures halted ==> list.blocks == old(list.blocks) && list.memory == old(list.memory)
      ensures !halted ==>
                && list.blocks == Extend(old(list.blocks), size, align) && list.blocks != []
                && block == list.blocks[|list.blocks| - 1].addr
                && PayloadsKept(old(list.memory), list.memory, old(list.blocks))
    {
      block := 0;
      halted := TestEnd(size, align);
      if !halted {
        WrappedTestIff(list.blocks, size, align, HEAP_END);
        AllocInside(list.blocks, size, align);
        UsedBytesExtend(list.blocks, size, align);
        block := Place(size, align, Extend(list.blocks, size, align));
      }
    }

    /** The end-of-heap test, in 32 bits. */
    method TestEnd(size: nat, align: nat) returns (halted: bool)
      requires Valid() && align > 0 && list.blocks != []
      ensures halted <==> NewEnd32(list.blocks, size, align) > HEAP_END
    {
      var end := list.TopEnd();
      halted := EndAfter(end, size, align) > HEAP_END;
    }

    /** The new block and its bytes on the account; `r` is the list with it. */
    method Place(size: nat, align: nat, ghost r: seq<Block>) returns (block: nat)
      requires Valid() && align > 0 && align % 4 == 0 && size % 4 == 0 && list.blocks != []
      requires r == Extend(list.blocks, size, align) && Inside(r) && UsedBytes(r) == UsedBytes(list.blocks) + size
      modifies this, list
      ensures Valid() && list.blocks == r && r != [] && block == r[|r| - 1].addr
      ensures PayloadsKept(old(list.memory), list.memory, old(list.blocks))
    {
      block := list.NewBlock(size, align);
      usedMemory := usedMemory + size;
    }

    /** The allocation of a rounded size on a list that has been set up. */
    method AllocRounded(align: nat, size: nat) returns (halted: bool, ptr: nat, ghost i: nat)
      requires Valid() && align > 0 && align % 4 == 0 && size % 4 == 0 && list.blocks != []
      requires Fits32(list.blocks, size, align)
      modifies this, list
      ensures Valid() && halted == old(Exhausted(list.blocks, size, align))
      ensures !halted ==>
                && (list.blocks, i) == Alloc(old(list.blocks), size, align)
                && i < |list.blocks| && ptr == Data(list.blocks[i])
      ensures halted ==> list.blocks == old(list.blocks)
      ensures PayloadsKept(old(list.memory), list.memory, old(list.blocks))
    {
      var block;
      block, i := list.FindBlock(size, align);
      if block != 0 {
        Reuse(block, i, size, align);
        return false, block + HEADER, i;
      }
      halted, block := Grow(size, align);
      ptr, i := block + HEADER, |list.blocks| - 1;
    }

    /** `aligned_alloc` of the kernel; `halted` when the heap is exhausted. */
    method AlignedAlloc(align: nat, size: nat) returns (halted: bool, ptr: nat, ghost i: nat)
      requires Valid() && align > 0 && align % 4 == 0 && size < TWO32
      requires Fits32(Started(list.blocks), Round32(size), align)
      modifies this, list
      ensures Valid() && halted == Exhausted(Started(old(list.blocks)), Round32(size), align)
      ensures !halted ==>
                && (list.blocks, i) == Alloc(Started(old(list.blocks)), Round32(size), align)
                && i < |list.blocks| && ptr == Data(list.blocks[i])
      ensures halted ==> list.blocks == Started(old(list.blocks))
      ensures old(list.blocks) != [] ==> PayloadsKept(old(list.memory), list.memory, old(list.blocks))
    {
      RoundingIff(size);
      Setup();
      halted, ptr, i := AllocRounded(align, Round32(size));
    }

    /** `kfree` of a pointer that is NULL or was handed out and not freed since. */
    method Kfree(ptr: nat, ghost i: nat)
      requires Valid()
      requires ptr != 0 ==> 0 < i < |list.blocks| && list.blocks[i].used && ptr == Data(list.blocks[i])
      modifies this, list
      ensures Valid()
      ensures list.blocks == if ptr == 0 then old(list.blocks) else Release(old(list.blocks), i)
      ensures ptr != 0 ==> PayloadsKept(old(list.memory), list.memory, old(list.blocks))
    {
      if ptr == 0 {
        return;
      }
      FlagFacts(list.blocks, i, false);
      list.Mark(ptr - HEADER, false, i);
      var size := FieldOf(ptr - HEADER, i);
      usedMemory := usedMemory - size;
    }
  }
}
