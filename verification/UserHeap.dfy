/** libc `malloc`: the block list on memory obtained from the kernel with `sbrk`. */
module UserHeap {
  import opened Arithmetic
  import opened HeapSpec
  import opened Heap

  /** From here on a size passed to the kernel is negative. */
  const TWO31 := 0x8000_0000

  /** A word as the kernel's `sbrk` takes it. */
  function AsInt32(w: nat): int { if w < TWO31 then w else w - TWO32 }

  /** The list an allocation starts from, when the break was at `brk`. */
  ghost function Started(bs: seq<Block>, brk: nat): seq<Block> {
    if bs == [] then [Block(brk, 0, true)] else bs
  }

  /** No free block suits, and the end of a new one, computed in 32 bits, is behind the break. */
  ghost predicate Short(bs: seq<Block>, brk: nat, size: nat, align: nat)
    requires bs != [] && align > 0
  {
    FindFrom(bs, size, align, 0) == |bs| && NewEnd32(bs, size, align) > brk
  }

  /** The allocation does no harm: it reuses a block, or the sum does not wrap around, or the kernel is
      asked for more memory and refuses; and the kernel is never asked for a negative amount. */
  ghost predicate Fits32(bs: seq<Block>, brk: nat, size: nat, align: nat, more: bool)
    requires bs != [] && align > 0
  {
    var end := NewEnd32(bs, size, align);
    || FindFrom(bs, size, align, 0) < |bs|
    || ((NewEnd(bs, size, align) < TWO32 || (end > brk && !more)) && end < brk + TWO31)
  }

  /** When no block suits, the block handed out lies below the break, as it is after the kernel has
      granted what it was asked for, exactly when the sum did not wrap around. */
  lemma {:induction false} BreakIff(bs: seq<Block>, brk: nat, size: nat, align: nat)
    requires WellFormed(bs) && Below(bs, brk) && brk < TWO32 && align > 0 && align % 4 == 0 && size % 4 == 0
    requires FindFrom(bs, size, align, 0) == |bs|
    ensures var end := NewEnd32(bs, size, align);
            Below(Alloc(bs, size, align).0, Max(end, brk)) <==> NewEnd(bs, size, align) < TWO32
  {
    var end := NewEnd32(bs, size, align);
    AllocBelowIff(bs, size, align, Max(end, brk));
    WrappedTestIff(bs, size, align, Max(end, brk));
  }

  /** A request does no harm if and only if NULL is returned or the block lies below the break, and the
      kernel is not asked for a negative amount. */
  lemma {:induction false} HarmlessIff(bs: seq<Block>, brk: nat, size: nat, align: nat, more: bool)
    requires WellFormed(bs) && Below(bs, brk) && brk < TWO32 && align > 0 && align % 4 == 0 && size % 4 == 0
    ensures var end := NewEnd32(bs, size, align);
            Fits32(bs, brk, size, align, more) <==>
            && ((Short(bs, brk, size, align) && !more) || Below(Alloc(bs, size, align).0, Max(end, brk)))
            && (Short(bs, brk, size, align) ==> AsInt32(end - brk) >= 0)
  {
    var end := NewEnd32(bs, size, align);
    if FindFrom(bs, size, align, 0) == |bs| {
      BreakIff(bs, brk, size, align);
      if end > brk {
        AmountIff(end, brk);
      }
    } else {
      AllocBelowIff(bs, size, align, Max(end, brk));
    }
  }

  /** The kernel is asked for the missing bytes exactly when they are less than 2 GiB; otherwise the
      amount is negative. */
  lemma AmountIff(end: nat, brk: nat)
    requires brk < end < TWO32
    ensures AsInt32(end - brk) == end - brk <==> end < brk + TWO31
    ensures AsInt32(end - brk) < 0 <==> end >= brk + TWO31
  {
  }

  /** With the break at 0x20000, the first request, of 0xFFFFF000 bytes, gets a block that passes the break
      without asking the kernel for more than the first header. */
  lemma HugeRequestPassesTheBreak()
    ensures var bs, brk, size := Started([], 0x2_0000), 0x2_0000 + HEADER, Round32(0xFFFF_F000);
            && FindFrom(bs, size, MIN_ALIGN, 0) == |bs| && NewEnd32(bs, size, MIN_ALIGN) <= brk
            && !Below(Alloc(bs, size, MIN_ALIGN).0, brk)
  {
    var bs, brk, size := Started([], 0x2_0000), 0x2_0000 + HEADER, Round32(0xFFFF_F000);
    RoundingIff(0xFFFF_F000);
    assert size == 0xFFFF_F000;
    assert End(bs[0]) == 0x2_000C && NewAddr(bs[0], MIN_ALIGN) == 0x2_000C;
    assert NewEnd(bs, size, MIN_ALIGN) == TWO32 + 0x1_F014;
    assert NewEnd32(bs, size, MIN_ALIGN) == 0x1_F014;
    BreakIff(bs, brk, size, MIN_ALIGN);
  }

  lemma ExtendBelow(bs: seq<Block>, size: nat, align: nat, brk: nat)
    requires WellFormed(bs) && Below(bs, brk) && align > 0 && align % 4 == 0 && size % 4 == 0
    requires NewEnd(bs, size, align) <= brk
    ensures Below(Extend(bs, size, align), brk)
  {
    NewAddrAligned(bs[|bs| - 1], align);
    FillerBridges(bs[|bs| - 1], NewAddr(bs[|bs| - 1], align));
  }

  lemma NewEndAligned(top: nat, size: nat, align: nat)
    requires align > 0 && align % 4 == 0 && size % 4 == 0
    ensures EndAfter(top, size, align) % 4 == 0
  {
    MultipleOf4(AlignTo(Word32(top + HEADER), align), align);
    WordSum4(AlignTo(Word32(top + HEADER), align), size);
  }

  lemma WordSum4(n: nat, size: nat)
    requires n % 4 == 0 && size % 4 == 0
    ensures Word32(Word32(n) + size) % 4 == 0
  {
    Word4(n);
    Sum4(Word32(n), size);
    Word4(Word32(n) + size);
  }

  lemma Sum4(a: nat, b: nat)
    requires a % 4 == 0 && b % 4 == 0
    ensures (a + b) % 4 == 0
  {
  }

  lemma Word4(x: nat)
    requires x % 4 == 0
    ensures Word32(x) % 4 == 0
  {
    var k := x / 4;
    assert x == 4 * k;
    assert Word32(x) == 4 * (k - 0x4000_0000 * (x / TWO32));
  }

  /** Writing into a payload leaves all headers and all other payloads alone. */
  lemma WritePayload(m: Memory, bs: seq<Block>, i: nat, a: nat, v: nat)
    requires WellFormed(bs) && Stored(m, bs) && i < |bs| && Data(bs[i]) <= a < Limit(bs[i])
    ensures Stored(m[a := v], bs)
  {
    var m' := m[a := v];
    forall j | 0 <= j < |bs| ensures HeaderOk(m', bs, j) {
      assert HeaderOk(m, bs, j);
      assert i < j ==> End(bs[i]) <= bs[j].addr;
      assert j < i ==> End(bs[j]) <= bs[i].addr;
    }
  }

  /** `r` is `bs` with flags changed and blocks added behind it. */
  ghost predicate Extends(bs: seq<Block>, r: seq<Block>) {
    && bs != [] && |bs| <= |r| && WellFormed(r)
    && forall k :: 0 <= k < |bs| ==> r[k].addr == bs[k].addr && r[k].size == bs[k].size
  }

  lemma WritableExtends(bs: seq<Block>, r: seq<Block>, a: nat)
    requires Extends(bs, r) && Writable(r, a)
    ensures Writable(bs, a)
  {
    var n := |bs| - 1;
    assert forall k :: n < k < |r| ==> End(r[n]) <= r[k].addr;
    if a < End(bs[n]) {
      var k :| 0 <= k < |r| && (a == r[k].addr || a == r[k].addr + 4);
      assert k <= n;
      assert bs[k].addr == r[k].addr;
    }
  }

  /** From `m0` to `m`, block `j` of `bs` was copied to `n`, up to `size` bytes, in whole words,
      and apart from that only words of the allocator changed. */
  ghost predicate Moved(m0: Memory, m: Memory, bs: seq<Block>, j: nat, n: nat, size: nat)
    requires j < |bs|
  {
    && (forall k :: 0 <= k && 4 * k + 4 <= bs[j].size && 4 * k + 4 <= size ==>
                      Word(m, n + 4 * k) == Word(m0, Data(bs[j]) + 4 * k))
    && (forall a: nat :: Word(m, a) != Word(m0, a) ==> Writable(bs, a) || n <= a < n + size)
  }

  /** `n` words from `src` on were copied to `dst`, and nothing else changed. */
  ghost predicate Copied(m: Memory, m': Memory, dst: nat, src: nat, n: nat) {
    && (forall k :: 0 <= k < n ==> Word(m', dst + 4 * k) == Word(m, src + 4 * k))
    && (forall a: nat :: !(dst <= a < dst + 4 * n) ==> Word(m', a) == Word(m, a))
  }

  lemma CopyStep(m0: Memory, m: Memory, dst: nat, src: nat, k: nat, n: nat)
    requires Copied(m0, m, dst, src, k) && k < n && (dst + 4 * n <= src || src + 4 * n <= dst)
    ensures Copied(m0, m[dst + 4 * k := Word(m, src + 4 * k)], dst, src, k + 1)
  {
    assert Word(m, src + 4 * k) == Word(m0, src + 4 * k);
  }

  lemma CopiedIsMoved(m0: Memory, m1: Memory, m2: Memory, bs: seq<Block>, j: nat, n: nat, size: nat, words: nat)
    requires WellFormed(bs) && j < |bs| && PayloadsKept(m0, m1, bs)
    requires Copied(m1, m2, n, Data(bs[j]), words)
    requires words == (if bs[j].size > size then size else bs[j].size) / 4
    ensures Moved(m0, m2, bs, j, n, size)
  {
    forall k | 0 <= k && 4 * k + 4 <= bs[j].size && 4 * k + 4 <= size
      ensures Word(m2, n + 4 * k) == Word(m0, Data(bs[j]) + 4 * k)
    {
      assert k < words;
      if Writable(bs, Data(bs[j]) + 4 * k) { WritableIsNoPayload(bs, Data(bs[j]) + 4 * k, j); }
    }
  }

  lemma MovedStays(m0: Memory, m1: Memory, m2: Memory, bs: seq<Block>, r: seq<Block>, i: nat, j: nat, n: nat, size: nat)
    requires Extends(bs, r) && i < |r| && j < |bs| && n == Data(r[i]) && r[i].size >= size
    requires Moved(m0, m1, bs, j, n, size) && PayloadsKept(m1, m2, r)
    ensures Moved(m0, m2, bs, j, n, size)
  {
    forall k | 0 <= k && 4 * k + 4 <= size ensures Word(m2, n + 4 * k) == Word(m1, n + 4 * k) {
      if Writable(r, n + 4 * k) { WritableIsNoPayload(r, n + 4 * k, i); }
    }
    forall a: nat | Word(m2, a) != Word(m1, a) ensures Writable(bs, a) {
      WritableExtends(bs, r, a);
    }
  }

  class Allocator {
    const list: BlockList
    var brk: nat

    ghost predicate Valid()
      reads this, list
    {
      list.Valid() && 0 < brk < TWO32 && brk % 4 == 0 && Below(list.blocks, brk)
    }

    /** A process starts with its break at a page boundary. */
    constructor (brk: nat)
      requires 0 < brk < TWO32 && brk % 4 == 0
      ensures Valid() && list.blocks == [] && this.brk == brk && fresh(list)
    {
      list := new BlockList();
      this.brk := brk;
    }

    /** The kernel's `sbrk` for an amount that is not negative: the old break, or -1 when it does not
        grant the request. */
    method Sbrk(n: int, granted: bool) returns (r: int)
      requires 0 <= n < TWO31 && (granted ==> brk + n < TWO32)
      modifies this
      ensures n == 0 || granted ==> r == old(brk) && brk == old(brk) + n
      ensures n > 0 && !granted ==> r == -1 && brk == old(brk)
    {
      if n > 0 && !granted {
        return -1;
      }
      r := brk;
      brk := brk + n;
    }

    /** The first call lays down an empty used block. */
    method Setup(granted: bool) returns (ok: bool)
      requires Valid() && (granted && list.blocks == [] ==> brk + HEADER < TWO32)
      modifies this, list
      ensures Valid() && brk >= old(brk)
      ensures ok <==> old(list.blocks) != [] || granted
      ensures brk == if ok && old(list.blocks) == [] then old(brk) + HEADER else old(brk)
      ensures list.blocks == if ok then Started(old(list.blocks), old(brk)) else []
      ensures old(list.blocks) != [] ==> list.memory == old(list.memory)
    {
      if list.top == 0 {
        var addr := Sbrk(HEADER, granted);
        if addr == -1 {
          return false;
        }
        list.Start(addr);
      }
      ok := true;
    }

    /** Asks for more memory if needed and puts a new block behind the top one. */
    method Grow(size: nat, align: nat, granted: bool) returns (block: nat)
      requires Valid() && align > 0 && align % 4 == 0 && size % 4 == 0 && list.blocks != []
      requires FindFrom(list.blocks, size, align, 0) == |list.blocks|
      requires Fits32(list.blocks, brk, size, align, granted)
      modifies this, list
      ensures Valid() && brk >= old(brk)
      ensures block == 0 <==> !granted && NewEnd32(old(list.blocks), size, align) > old(brk)
      ensures block == 0 ==> list.blocks == old(list.blocks) && list.memory == old(list.memory)
      ensures block != 0 ==>
                && list.blocks == Extend(old(list.blocks), size, align) && list.blocks != []
                && block == list.blocks[|list.blocks| - 1].addr
                && PayloadsKept(old(list.memory), list.memory, old(list.blocks))
    {
      var need := Needed(size, align);
      var ok := Reserve(need, granted);
      if !ok {
        return 0;
      }
      WrappedTestIff(list.blocks, size, align, brk);
      ExtendBelow(list.blocks, size, align, brk);
      block := list.NewBlock(size, align);
    }

    /** Where a new block would end, in 32 bits. */
    method Needed(size: nat, align: nat) returns (need: nat)
      requires Valid() && align > 0 && align % 4 == 0 && size % 4 == 0 && list.blocks != []
      ensures need == NewEnd32(list.blocks, size, align) && need % 4 == 0
    {
      var end := list.TopEnd();
      NewEndAligned(end, size, align);
      need := EndAfter(end, size, align);
    }

    /** Moves the break up to `end` unless it is there already. */
    method Reserve(end: nat, granted: bool) returns (ok: bool)
      requires Valid() && end % 4 == 0 && end < TWO32 && end < brk + TWO31
      modifies this
      ensures Valid() && brk == if ok then Max(end, old(brk)) else old(brk)
      ensures ok <==> granted || end <= old(brk)
    {
      var b := Sbrk(0, true);
      if end > b {
        AmountIff(end, brk);
        var r := Sbrk(AsInt32(end - b), granted);
        if r == -1 {
          return false;
        }
      }
      ok := true;
    }

    /** The allocation of a rounded size on a list that has been set up; 0 stands for NULL. */
    method AllocRounded(align: nat, size: nat, granted: bool) returns (ptr: nat, ghost i: nat)
      requires Valid() && align > 0 && align % 4 == 0 && size % 4 == 0 && list.blocks != []
      requires Fits32(list.blocks, brk, size, align, granted)
      modifies this, list
      ensures Valid() && brk >= old(brk)
      ensures ptr != 0 ==>
                && (list.blocks, i) == Alloc(old(list.blocks), size, align)
                && i < |list.blocks| && ptr == Data(list.blocks[i])
      ensures ptr == 0 <==> !granted && old(Short(list.blocks, brk, size, align))
      ensures ptr == 0 ==> list.blocks == old(list.blocks)
      ensures PayloadsKept(old(list.memory), list.memory, old(list.blocks))
    {
      var block;
      block, i := list.FindBlock(size, align);
      if block != 0 {
        Reuse(block, i);
        return block + HEADER, i;
      }
      block := Grow(size, align, granted);
      if block == 0 {
        return 0, 0;
      }
      ptr, i := block + HEADER, |list.blocks| - 1;
    }

    /** Hands out a free block. */
    method Reuse(block: nat, ghost i: nat)
      requires Valid() && i < |list.blocks| && block == list.blocks[i].addr
      modifies list
      ensures Valid() && list.blocks == old(list.blocks)[i := old(list.blocks)[i].(used := true)]
      ensures PayloadsKept(old(list.memory), list.memory, old(list.blocks))
    {
      ghost var bs := list.blocks;
      list.Mark(block, true, i);
      assert forall k :: 0 <= k < |bs| ==> Limit(list.blocks[k]) == Limit(bs[k]);
    }

    /** When `aligned_alloc` returns NULL: the kernel refused the first header, or it refused more memory
        that was needed. */
    ghost predicate Refused(size: nat, align: nat, header: bool, more: bool)
      requires align > 0
      reads this, list
    {
      if list.blocks != [] then !more && Short(list.blocks, brk, Round32(size), align)
      else !header || (!more && Short(Started([], brk), brk + HEADER, Round32(size), align))
    }

    /** Nothing is refused when the kernel grants what it is asked for, or when a free block suits; a fresh heap
        needs its first header; and without more memory a request that needs it gets none. */
    lemma RefusedIs(size: nat, align: nat, header: bool, more: bool)
      requires Valid() && align > 0
      ensures header && more ==> !Refused(size, align, header, more)
      ensures list.blocks == [] && !header ==> Refused(size, align, header, more)
      ensures list.blocks != [] ==>
                (Refused(size, align, header, more) <==>
                 !more && (forall j :: 0 <= j < |list.blocks| ==> !Suits(list.blocks[j], Round32(size), align))
                 && NewEnd32(list.blocks, Round32(size), align) > brk)
    {
    }

    /** The request does no harm (see `Fits32`), on a fresh heap once the first header is there. */
    ghost predicate Harmless(size: nat, align: nat, header: bool, more: bool)
      requires align > 0
      reads this, list
    {
      if list.blocks != [] then Fits32(list.blocks, brk, Round32(size), align, more)
      else header ==>
        && brk + HEADER < TWO32
        && Fits32(Started([], brk), brk + HEADER, Round32(size), align, more)
    }

    /** `aligned_alloc`; `header` and `more` are the kernel's answers to the two requests for memory it
        may make, the first header and the block. */
    method AlignedAlloc(align: nat, size: nat, header: bool, more: bool) returns (ptr: nat, ghost i: nat)
      requires Valid() && align > 0 && align % 4 == 0 && size < TWO32 && Harmless(size, align, header, more)
      modifies this, list
      ensures Valid() && brk >= old(brk)
      ensures ptr == 0 <==> old(Refused(size, align, header, more))
      ensures ptr != 0 ==>
                && (list.blocks, i) == Alloc(Started(old(list.blocks), old(brk)), Round32(size), align)
                && i < |list.blocks| && ptr == Data(list.blocks[i])
      ensures ptr == 0 ==>
                list.blocks == if old(list.blocks) == [] && !header then [] else Started(old(list.blocks), old(brk))
      ensures old(list.blocks) != [] ==> PayloadsKept(old(list.memory), list.memory, old(list.blocks))
    {
      RoundingIff(size);
      var ok := Setup(header);
      if !ok {
        return 0, 0;
      }
      ptr, i := AllocRounded(align, Round32(size), more);
    }

    /** `free` of a pointer that is NULL or was handed out and not freed since. */
    method Free(ptr: nat, ghost i: nat)
      requires Valid()
      requires ptr != 0 ==> 0 < i < |list.blocks| && list.blocks[i].used && ptr == Data(list.blocks[i])
      modifies list
      ensures Valid()
      ensures list.blocks == if ptr == 0 then old(list.blocks) else Release(old(list.blocks), i)
      ensures ptr == 0 ==> list.memory == old(list.memory)
      ensures ptr != 0 ==> PayloadsKept(old(list.memory), list.memory, old(list.blocks))
    {
      if ptr == 0 {
        return;
      }
      list.Mark(ptr - HEADER, false, i);
    }

    /** `memcpy` of `n` words from one payload to another. */
    method CopyWords(dst: nat, src: nat, n: nat, ghost i: nat, ghost j: nat)
      requires Valid() && i < |list.blocks| && j < |list.blocks| && i != j
      requires dst == Data(list.blocks[i]) && src == Data(list.blocks[j])
      requires 4 * n <= list.blocks[i].size && 4 * n <= list.blocks[j].size
      modifies list`memory
      ensures Valid()
      ensures Copied(old(list.memory), list.memory, dst, src, n)
    {
      PayloadsApart(list.blocks, i, j);
      CopyApart(dst, src, n, i);
    }

    /** The loop of `memcpy`, between places that do not overlap. */
    method CopyApart(dst: nat, src: nat, n: nat, ghost i: nat)
      requires Valid() && i < |list.blocks| && Data(list.blocks[i]) == dst && 4 * n <= list.blocks[i].size
      requires dst + 4 * n <= src || src + 4 * n <= dst
      modifies list`memory
      ensures Valid()
      ensures Copied(old(list.memory), list.memory, dst, src, n)
    {
      ghost var m0 := list.memory;
      for k := 0 to n
        invariant Valid() && Copied(m0, list.memory, dst, src, k)
      {
        CopyStep(m0, list.memory, dst, src, k, n);
        CopyWord(dst + 4 * k, src + 4 * k, i);
      }
    }

    method CopyWord(dst: nat, src: nat, ghost i: nat)
      requires Valid() && i < |list.blocks| && Data(list.blocks[i]) <= dst < Limit(list.blocks[i])
      modifies list`memory
      ensures Valid() && list.memory == old(list.memory)[dst := Word(old(list.memory), src)]
    {
      WritePayload(list.memory, list.blocks, i, dst, Word(list.memory, src));
      list.memory := list.memory[dst := Word(list.memory, src)];
    }

    /** `realloc`: NULL gets a new block, size 0 frees the old one, anything else moves it. */
    method Realloc(ptr: nat, size: nat, header: bool, more: bool, ghost j: nat) returns (n: nat, ghost i: nat)
      requires Valid() && size < TWO32 && (ptr != 0 ==> size <= MAX_SIZE)
      requires ptr == 0 || size > 0 ==> Harmless(size, MIN_ALIGN, header, more)
      requires ptr != 0 ==> 0 < j < |list.blocks| && list.blocks[j].used && ptr == Data(list.blocks[j])
      modifies this, list
      ensures Valid()
      ensures n == 0 <==> (ptr != 0 && size == 0) || old(Refused(size, MIN_ALIGN, header, more))
      ensures ptr == 0 && n != 0 ==>
                && (list.blocks, i) == Alloc(Started(old(list.blocks), old(brk)), Round32(size), MIN_ALIGN)
                && i < |list.blocks| && n == Data(list.blocks[i])
      ensures ptr != 0 && size == 0 ==> n == 0 && list.blocks == Release(old(list.blocks), j)
      ensures ptr != 0 && size > 0 && n == 0 ==> list.blocks == old(list.blocks)
      ensures n == 0 && old(list.blocks) != [] ==> PayloadsKept(old(list.memory), list.memory, old(list.blocks))
      ensures ptr != 0 && n != 0 ==>
                && i == Alloc(old(list.blocks), Round32(size), MIN_ALIGN).1
                && j < |Alloc(old(list.blocks), Round32(size), MIN_ALIGN).0|
                && list.blocks == Release(Alloc(old(list.blocks), Round32(size), MIN_ALIGN).0, j)
                && i < |list.blocks| && i != j && n == Data(list.blocks[i])
                && Moved(old(list.memory), list.memory, old(list.blocks), j, n, size)
    {
      if ptr == 0 {
        n, i := AlignedAlloc(MIN_ALIGN, size, header, more);
      } else if size == 0 {
        Free(ptr, j);
        n, i := 0, 0;
      } else {
        n, i := Resize(ptr, size, header, more, j);
      }
    }

    /** `realloc` of a live block to a size other than 0: a new block with the old contents as far
        as both reach (in whole words), the old block free, everything else untouched. */
    method Resize(ptr: nat, size: nat, header: bool, more: bool, ghost j: nat) returns (n: nat, ghost i: nat)
      requires Valid() && 0 < size <= MAX_SIZE && Harmless(size, MIN_ALIGN, header, more)
      requires 0 < j < |list.blocks| && list.blocks[j].used && ptr == Data(list.blocks[j])
      modifies this, list
      ensures Valid()
      ensures n == 0 <==> old(Refused(size, MIN_ALIGN, header, more))
      ensures n == 0 ==> list.blocks == old(list.blocks)
      ensures n == 0 ==> PayloadsKept(old(list.memory), list.memory, old(list.blocks))
      ensures n != 0 ==>
                && i == Alloc(old(list.blocks), Round32(size), MIN_ALIGN).1
                && j < |Alloc(old(list.blocks), Round32(size), MIN_ALIGN).0|
                && list.blocks == Release(Alloc(old(list.blocks), Round32(size), MIN_ALIGN).0, j)
                && i < |list.blocks| && i != j && n == Data(list.blocks[i])
      ensures n != 0 ==> Moved(old(list.memory), list.memory, old(list.blocks), j, n, size)
    {
      ghost var bs := list.blocks;
      RoundingIff(size);
      AllocReturns(bs, Round32(size), MIN_ALIGN);
      n, i := AlignedAlloc(MIN_ALIGN, size, header, more);
      if n != 0 {
        MoveAndFree(n, ptr, size, i, j, bs, old(list.memory));
      }
    }

    method MoveAndFree(n: nat, ptr: nat, size: nat, ghost i: nat, ghost j: nat, ghost bs: seq<Block>, ghost m0: Memory)
      requires Valid() && WellFormed(bs) && Extends(bs, list.blocks)
      requires i < |list.blocks| && 0 < j < |bs| && i != j && list.blocks[j] == bs[j] && bs[j].used
      requires n == Data(list.blocks[i]) && ptr == Data(bs[j]) && list.blocks[i].size >= size
      requires PayloadsKept(m0, list.memory, bs)
      modifies list
      ensures Valid() && list.blocks == Release(old(list.blocks), j)
      ensures Moved(m0, list.memory, bs, j, n, size)
    {
      MovePayload(n, ptr, size, i, j, bs, m0);
      ghost var m1, r := list.memory, list.blocks;
      Free(ptr, j);
      MovedStays(m0, m1, list.memory, bs, r, i, j, n, size);
    }

    /** The copy inside `realloc`, bounded by the old payload and the new size. */
    method MovePayload(n: nat, ptr: nat, size: nat, ghost i: nat, ghost j: nat, ghost bs: seq<Block>, ghost m0: Memory)
      requires Valid() && WellFormed(bs) && Extends(bs, list.blocks)
      requires i < |list.blocks| && j < |bs| && i != j && list.blocks[j] == bs[j]
      requires n == Data(list.blocks[i]) && ptr == Data(bs[j]) && list.blocks[i].size >= size
      requires PayloadsKept(m0, list.memory, bs)
      modifies list`memory
      ensures Valid()
      ensures Moved(m0, list.memory, bs, j, n, size)
    {
      var copy := PayloadSize(ptr, j);
      if copy > size {
        copy := size;
      }
      ghost var m1 := list.memory;
      CopyWords(n, ptr, copy / 4, i, j);
      CopiedIsMoved(m0, m1, list.memory, bs, j, n, size, copy / 4);
    }

    method PayloadSize(ptr: nat, ghost j: nat) returns (size: nat)
      requires list.Valid() && j < |list.blocks| && ptr == Data(list.blocks[j])
      ensures size == list.blocks[j].size
    {
      list.FlagIsLowBit(j);
      size := Word(list.memory, ptr - HEADER + 4) / 2 * 2;
    }
  }
}
