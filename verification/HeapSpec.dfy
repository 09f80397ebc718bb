/** The block list of the kernel and libc heaps: where blocks lie, what an allocation
    returns, and what holds over every run of allocations and releases. */
module HeapSpec {
  import opened Arithmetic

  /** A heap block: header address, payload size, and whether the payload is handed out. */
  datatype Block = Block(addr: nat, size: nat, used: bool)

  /** Offset of the payload in a block. */
  const HEADER := 8
  /** Size of a header as the compiler pads it. */
  const OVERHEAD := 12
  const MIN_ALIGN := 4
  /** The largest request that rounding up keeps in 32 bits. */
  const MAX_SIZE := 0xFFFF_FFF8

  function Data(b: Block): nat { b.addr + HEADER }

  /** First address behind the payload. */
  function Limit(b: Block): nat { Data(b) + b.size }

  /** Where the next header may start. */
  function End(b: Block): nat { b.addr + OVERHEAD + b.size }

  /** Rounds up to a multiple of `align`. */
  function AlignTo(n: nat, align: nat): (r: nat)
    requires align > 0
    ensures r % align == 0 && n <= r < n + align
  {
    if n % align == 0 then n
    else
      AlignedSum(n, align);
      n + (align - n % align)
  }

  lemma AlignedSum(n: nat, align: nat)
    requires align > 0
    ensures (n + (align - n % align)) % align == 0
  {
    var q := n / align;
    assert n + (align - n % align) == (q + 1) * align;
    MultipleMod(q + 1, align);
  }

  lemma MultipleMod(q: nat, a: nat)
    requires a > 0
    ensures q * a % a == 0
  {
    var d, r := q * a / a, q * a % a;
    assert (q - d) * a == r;
    MulBounds(q - d, a);
  }

  /** A multiple of a multiple of 4 is a multiple of 4. */
  lemma MultipleOf4(r: nat, align: nat)
    requires align > 0 && align % 4 == 0 && r % align == 0
    ensures r % 4 == 0
  {
    var k, m := r / align, align / 4;
    assert r == k * align == k * (4 * m) == 4 * (k * m);
  }

  // ---- The list ----

  /** Headers and payloads follow each other without overlap, starting with an empty used block. */
  ghost predicate WellFormed(bs: seq<Block>) {
    && bs != [] && bs[0].size == 0 && bs[0].used
    && (forall i :: 0 <= i < |bs| ==> bs[i].addr > 0 && bs[i].addr % 4 == 0 && bs[i].size % 4 == 0)
    && (forall i, j :: 0 <= i < j < |bs| ==> End(bs[i]) <= bs[j].addr)
  }

  predicate Suits(b: Block, size: nat, align: nat)
    requires align > 0
  {
    !b.used && b.size >= size && Data(b) % align == 0
  }

  /** First free block that suits, from index `k` on; `|bs|` if none. */
  function FindFrom(bs: seq<Block>, size: nat, align: nat, k: nat): (i: nat)
    requires align > 0 && k <= |bs|
    ensures k <= i <= |bs|
    ensures i < |bs| ==> Suits(bs[i], size, align)
    ensures forall j :: k <= j < i ==> !Suits(bs[j], size, align)
    decreases |bs| - k
  {
    if k == |bs| || Suits(bs[k], size, align) then k else FindFrom(bs, size, align, k + 1)
  }

  /** The first header address at or behind `end` that aligns the payload. */
  function NextHeader(end: nat, align: nat): (a: nat)
    requires align > 0
    ensures a >= end && (a + HEADER) % align == 0
  {
    AlignTo(end + HEADER, align) - HEADER
  }

  function NewAddr(top: Block, align: nat): (a: nat)
    requires align > 0
    ensures a >= End(top) && (a + HEADER) % align == 0
  {
    NextHeader(End(top), align)
  }

  /** The free block put in front of a new block at `a`, when the gap is worth it. */
  function Filler(top: Block, a: nat): seq<Block> {
    var next := AlignTo(End(top) + HEADER, MIN_ALIGN) - HEADER;
    if a - next > OVERHEAD + MIN_ALIGN then [Block(next, a - next - OVERHEAD, false)] else []
  }

  /** The list with a new used block at its end. */
  function Extend(bs: seq<Block>, size: nat, align: nat): seq<Block>
    requires bs != [] && align > 0 && align % 4 == 0
  {
    var top := bs[|bs| - 1];
    bs + Filler(top, NewAddr(top, align)) + [Block(NewAddr(top, align), size, true)]
  }

  /** The list after an allocation of `size` bytes (already rounded up), and the block's index. */
  function Alloc(bs: seq<Block>, size: nat, align: nat): (seq<Block>, nat)
    requires bs != [] && align > 0 && align % 4 == 0
  {
    var i := FindFrom(bs, size, align, 0);
    if i < |bs| then (bs[i := bs[i].(used := true)], i)
    else (Extend(bs, size, align), |Extend(bs, size, align)| - 1)
  }

  function Release(bs: seq<Block>, i: nat): seq<Block>
    requires i < |bs|
  {
    bs[i := bs[i].(used := false)]
  }

  /** Bytes of payload handed out. */
  function UsedBytes(bs: seq<Block>): nat {
    if bs == [] then 0
    else UsedBytes(bs[..|bs| - 1]) + if bs[|bs| - 1].used then bs[|bs| - 1].size else 0
  }

  // ---- One call ----

  /** A filler reaches exactly from the old top block to the new block. */
  lemma FillerBridges(top: Block, a: nat)
    requires top.addr % 4 == 0 && top.size % 4 == 0 && a % 4 == 0 && End(top) <= a
    ensures var f := Filler(top, a);
            f != [] ==> |f| == 1 && f[0].addr == End(top) && f[0].addr % 4 == 0 && f[0].size % 4 == 0
                        && !f[0].used && End(f[0]) == a
  {
    var e := End(top);
    var k := (a - e) / 4;
    assert a - e == 4 * k;
    assert (e + HEADER) % 4 == 0;
    assert a - e - OVERHEAD == 4 * (k - 3);
  }

  lemma AppendWellFormed(bs: seq<Block>, b: Block)
    requires WellFormed(bs) && b.addr % 4 == 0 && b.size % 4 == 0 && End(bs[|bs| - 1]) <= b.addr
    ensures WellFormed(bs + [b])
  {
  }

  lemma ExtendAt(bs: seq<Block>, a: nat, size: nat)
    requires WellFormed(bs) && size % 4 == 0 && a % 4 == 0 && End(bs[|bs| - 1]) <= a
    ensures WellFormed(bs + Filler(bs[|bs| - 1], a) + [Block(a, size, true)])
  {
    var top := bs[|bs| - 1];
    var f, b := Filler(top, a), Block(a, size, true);
    FillerBridges(top, a);
    if f != [] {
      AppendWellFormed(bs, f[0]);
      assert bs + f == bs + [f[0]];
      AppendWellFormed(bs + f, b);
    } else {
      assert bs + f == bs;
      AppendWellFormed(bs, b);
    }
  }

  lemma NewAddrAligned(top: Block, align: nat)
    requires align > 0 && align % 4 == 0
    ensures NewAddr(top, align) % 4 == 0
  {
    HeaderAligned(NewAddr(top, align), align);
  }

  lemma HeaderAligned(a: nat, align: nat)
    requires align > 0 && align % 4 == 0 && (a + HEADER) % align == 0
    ensures a % 4 == 0
  {
    MultipleOf4(a + HEADER, align);
  }

  lemma ExtendWellFormed(bs: seq<Block>, size: nat, align: nat)
    requires WellFormed(bs) && align > 0 && align % 4 == 0 && size % 4 == 0
    ensures WellFormed(Extend(bs, size, align))
  {
    NewAddrAligned(bs[|bs| - 1], align);
    ExtendAt(bs, NewAddr(bs[|bs| - 1], align), size);
  }

  lemma AllocWellFormed(bs: seq<Block>, size: nat, align: nat)
    requires WellFormed(bs) && align > 0 && align % 4 == 0 && size % 4 == 0
    ensures WellFormed(Alloc(bs, size, align).0)
  {
    if FindFrom(bs, size, align, 0) == |bs| {
      ExtendWellFormed(bs, size, align);
    }
  }

  /** Payloads of different blocks never overlap, nor do they meet any header. */
  lemma PayloadsApart(bs: seq<Block>, i: nat, j: nat)
    requires WellFormed(bs) && i < |bs| && j < |bs| && i != j
    ensures Limit(bs[i]) <= bs[j].addr || Limit(bs[j]) <= bs[i].addr
  {
    if i < j {
      assert End(bs[i]) <= bs[j].addr;
    } else {
      assert End(bs[j]) <= bs[i].addr;
    }
  }

  /** What the caller gets: aligned memory of at least the requested size that was free before
      (or did not exist), with every block handed out earlier still in place. */
  lemma AllocReturns(bs: seq<Block>, size: nat, align: nat)
    requires WellFormed(bs) && align > 0 && align % 4 == 0 && size % 4 == 0
    ensures var (r, i) := Alloc(bs, size, align);
            && i < |r| && r[i].used && r[i].size >= size && Data(r[i]) % align == 0
            && |bs| <= |r|
            && (i < |bs| ==> !bs[i].used)
            && (forall j :: 0 <= j < |bs| && j != i ==> r[j] == bs[j])
            && (i < |bs| ==> r[i] == bs[i].(used := true) && r == bs[i := r[i]])
            && (i >= |bs| ==> Data(r[i]) >= End(bs[|bs| - 1]) && forall j :: |bs| <= j < |r| && j != i ==> !r[j].used)
  {
    if FindFrom(bs, size, align, 0) == |bs| {
      NewAddrAligned(bs[|bs| - 1], align);
      FillerBridges(bs[|bs| - 1], NewAddr(bs[|bs| - 1], align));
    }
  }

  // ---- Accounting ----

  lemma {:induction false} UsedBytesUpdate(bs: seq<Block>, i: nat, used: bool)
    requires i < |bs|
    ensures UsedBytes(bs[i := bs[i].(used := used)]) ==
            UsedBytes(bs) - (if bs[i].used then bs[i].size else 0) + if used then bs[i].size else 0
  {
    var r := bs[i := bs[i].(used := used)];
    var n := |bs| - 1;
    if i == n {
      assert r[..n] == bs[..n];
    } else {
      assert r[..n] == bs[..n][i := bs[i].(used := used)];
      UsedBytesUpdate(bs[..n], i, used);
    }
  }

  lemma {:induction false} UsedBytesExtend(bs: seq<Block>, size: nat, align: nat)
    requires bs != [] && align > 0 && align % 4 == 0
    ensures UsedBytes(Extend(bs, size, align)) == UsedBytes(bs) + size
  {
    var top, r := bs[|bs| - 1], Extend(bs, size, align);
    var mid := bs + Filler(top, NewAddr(top, align));
    assert r[..|r| - 1] == mid;
    if Filler(top, NewAddr(top, align)) != [] {
      assert mid[..|mid| - 1] == bs;
    } else {
      assert mid == bs;
    }
  }

  // ---- Whole runs ----

  /** What clients do.  A release names a block they were given and have not released. */
  datatype Op = AllocOp(size: nat, align: nat) | ReleaseOp(index: nat)

  predicate OpOk(bs: seq<Block>, op: Op) {
    match op
    case AllocOp(size, align) => align > 0 && align % 4 == 0
    case ReleaseOp(i) => 0 < i < |bs| && bs[i].used
  }

  function Step(bs: seq<Block>, op: Op): seq<Block>
    requires bs != [] && OpOk(bs, op)
  {
    match op
    case AllocOp(size, align) => Alloc(bs, AlignTo(size, 8), align).0
    case ReleaseOp(i) => Release(bs, i)
  }

  ghost predicate Reaches(bs: seq<Block>, ops: seq<Op>, end: seq<Block>)
    decreases |ops|
  {
    if ops == [] then end == bs
    else bs != [] && OpOk(bs, ops[0]) && Reaches(Step(bs, ops[0]), ops[1..], end)
  }

  lemma StepKeeps(bs: seq<Block>, op: Op)
    requires WellFormed(bs) && OpOk(bs, op)
    ensures WellFormed(Step(bs, op)) && |bs| <= |Step(bs, op)|
    ensures forall j :: 0 <= j < |bs| ==> Step(bs, op)[j].addr == bs[j].addr && Step(bs, op)[j].size == bs[j].size
  {
    match op
    case AllocOp(size, align) =>
      Rounded(size);
      AllocKeeps(bs, AlignTo(size, 8), align);
    case ReleaseOp(i) =>
  }

  lemma Rounded(size: nat)
    ensures AlignTo(size, 8) % 4 == 0
  {
    MultipleOf4(AlignTo(size, 8), 8);
  }

  lemma AllocKeeps(bs: seq<Block>, size: nat, align: nat)
    requires WellFormed(bs) && align > 0 && align % 4 == 0 && size % 4 == 0
    ensures var r := Alloc(bs, size, align).0;
            && WellFormed(r) && |bs| <= |r|
            && forall j :: 0 <= j < |bs| ==> r[j].addr == bs[j].addr && r[j].size == bs[j].size
  {
    AllocWellFormed(bs, size, align);
    AllocReturns(bs, size, align);
  }

  /** Over every run the list stays well formed and no block ever moves, shrinks or grows: so two
      blocks that are in use at the same time never share a byte. */
  lemma {:induction false} BlocksNeverMove(bs: seq<Block>, ops: seq<Op>, end: seq<Block>)
    requires WellFormed(bs) && Reaches(bs, ops, end)
    ensures WellFormed(end) && |bs| <= |end|
    ensures forall j :: 0 <= j < |bs| ==> end[j].addr == bs[j].addr && end[j].size == bs[j].size
    ensures forall i, j :: 0 <= i < j < |end| ==> Limit(end[i]) <= Data(end[j])
    decreases |ops|
  {
    if ops != [] {
      StepKeeps(bs, ops[0]);
      BlocksNeverMove(Step(bs, ops[0]), ops[1..], end);
    }
    forall i, j | 0 <= i < j < |end| ensures Limit(end[i]) <= Data(end[j]) {
      PayloadsApart(end, i, j);
    }
  }

  /** A released block is free, nothing else changes, and its bytes are off the account; the next request
      that it suits is met by it or by a block in front of it, without growing the heap. */
  lemma {:induction false} ReleaseFrees(bs: seq<Block>, i: nat, size: nat, align: nat)
    requires i < |bs| && bs[i].used
    ensures var r := Release(bs, i);
            && |r| == |bs| && r[i] == Block(bs[i].addr, bs[i].size, false)
            && (forall j :: 0 <= j < |bs| && j != i ==> r[j] == bs[j])
            && UsedBytes(r) == UsedBytes(bs) - bs[i].size
            && (align > 0 && size <= bs[i].size && (bs[i].addr + 8) % align == 0 ==> FindFrom(r, size, align, 0) <= i)
  {
    UsedBytesUpdate(bs, i, false);
    var r := Release(bs, i);
    if align > 0 && size <= bs[i].size && (bs[i].addr + 8) % align == 0 {
      assert Suits(r[i], size, align);
    }
  }

  // ---- In 32 bits ----

  /** The size of a request rounded up as the allocators do it. */
  function Round32(size: nat): (r: nat)
    ensures r < TWO32
  {
    Word32(AlignTo(size, 8))
  }

  /** Rounding gives at least the requested size exactly for requests of at most 0xFFFFFFF8 bytes; the
      few larger ones become 0. */
  lemma RoundingIff(size: nat)
    requires size < TWO32
    ensures Round32(size) % 4 == 0
    ensures Round32(size) >= size <==> size <= MAX_SIZE
    ensures Round32(size) == if size <= MAX_SIZE then AlignTo(size, 8) else 0
  {
    var r := AlignTo(size, 8);
    var k := r / 8;
    assert r == 8 * k;
    if r < TWO32 {
      SmallMod(r);
    } else {
      assert r == TWO32;
    }
  }

  /** Where the payload of a new block would end. */
  function NewEnd(bs: seq<Block>, size: nat, align: nat): nat
    requires bs != [] && align > 0
  {
    NewAddr(bs[|bs| - 1], align) + HEADER + size
  }

  /** No payload passes `limit`. */
  ghost predicate Below(bs: seq<Block>, limit: nat) {
    forall i :: 0 <= i < |bs| ==> Limit(bs[i]) <= limit
  }

  /** An allocation stays below a limit exactly when it reuses a block or the new one ends below it. */
  lemma {:induction false} AllocBelowIff(bs: seq<Block>, size: nat, align: nat, limit: nat)
    requires WellFormed(bs) && Below(bs, limit) && align > 0 && align % 4 == 0 && size % 4 == 0
    ensures Below(Alloc(bs, size, align).0, limit) <==>
            FindFrom(bs, size, align, 0) < |bs| || NewEnd(bs, size, align) <= limit
  {
    var top := bs[|bs| - 1];
    var r := Alloc(bs, size, align).0;
    if FindFrom(bs, size, align, 0) == |bs| {
      NewAddrAligned(top, align);
      FillerBridges(top, NewAddr(top, align));
      assert Limit(r[|r| - 1]) == NewEnd(bs, size, align);
    }
  }

  /** The same as the allocators compute it from where the top block ends, each step in 32 bits. */
  function EndAfter(top: nat, size: nat, align: nat): (end: nat)
    requires align > 0
    ensures end < TWO32
  {
    Word32(Word32(AlignTo(Word32(top + HEADER), align)) + size)
  }

  function NewEnd32(bs: seq<Block>, size: nat, align: nat): (end: nat)
    requires bs != [] && align > 0
    ensures end < TWO32
  {
    EndAfter(End(bs[|bs| - 1]), size, align)
  }

  /** The end computed is the true one exactly when that fits in 32 bits. */
  lemma {:induction false} NewEnd32Iff(bs: seq<Block>, size: nat, align: nat)
    requires bs != [] && align > 0
    ensures NewEnd32(bs, size, align) == NewEnd(bs, size, align) <==> NewEnd(bs, size, align) < TWO32
  {
    var n := End(bs[|bs| - 1]) + HEADER;
    if NewEnd(bs, size, align) < TWO32 {
      SmallMod(n);
      SmallMod(AlignTo(n, align));
      SmallMod(AlignTo(n, align) + size);
    }
  }

  /** A computed end that passes the test against a limit stands for a block below the limit exactly
      when nothing wrapped around. */
  lemma {:induction false} WrappedTestIff(bs: seq<Block>, size: nat, align: nat, limit: nat)
    requires bs != [] && align > 0 && NewEnd32(bs, size, align) <= limit < TWO32
    ensures NewEnd(bs, size, align) <= limit <==> NewEnd(bs, size, align) < TWO32
  {
    NewEnd32Iff(bs, size, align);
  }
}
