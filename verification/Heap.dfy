/** The block list as it lies in memory: every header is two words, the address of the next
    header and the payload size with the used flag in its lowest bit.  `BlockList` is the part
    the kernel heap and the libc heap have in common. */
module Heap {
  import opened HeapSpec

  /** Memory by word address; words nobody wrote read as 0. */
  type Memory = map<nat, nat>

  function Word(m: Memory, a: nat): nat {
    if a in m then m[a] else 0
  }

  function SizeField(b: Block): nat {
    b.size + if b.used then 1 else 0
  }

  /** The header of block `i` is in memory. */
  ghost predicate HeaderOk(m: Memory, bs: seq<Block>, i: nat)
    requires i < |bs|
  {
    && Word(m, bs[i].addr) == (if i + 1 < |bs| then bs[i + 1].addr else 0)
    && Word(m, bs[i].addr + 4) == SizeField(bs[i])
  }

  ghost predicate Stored(m: Memory, bs: seq<Block>) {
    forall i :: 0 <= i < |bs| ==> HeaderOk(m, bs, i)
  }

  /** Addresses an allocator may write to: header words, and everything behind the last block. */
  ghost predicate Writable(bs: seq<Block>, a: nat)
    requires bs != []
  {
    a >= End(bs[|bs| - 1]) || exists i :: 0 <= i < |bs| && (a == bs[i].addr || a == bs[i].addr + 4)
  }

  /** Such an address is in no payload, so clients never see the allocator's writes. */
  lemma WritableIsNoPayload(bs: seq<Block>, a: nat, j: nat)
    requires WellFormed(bs) && Writable(bs, a) && j < |bs|
    ensures !(Data(bs[j]) <= a < Limit(bs[j]))
  {
    var n := |bs| - 1;
    assert j < n ==> End(bs[j]) <= bs[n].addr;
    if a < End(bs[n]) {
      var i :| 0 <= i < |bs| && (a == bs[i].addr || a == bs[i].addr + 4);
      assert i < j ==> End(bs[i]) <= bs[j].addr;
      assert j < i ==> End(bs[j]) <= bs[i].addr;
    }
  }

  /** Only words the allocator may write to differ. */
  ghost predicate PayloadsKept(m: Memory, m': Memory, bs: seq<Block>)
    requires bs != []
  {
    forall a: nat :: Word(m', a) != Word(m, a) ==> Writable(bs, a)
  }

  lemma SetFlag(m: Memory, bs: seq<Block>, i: nat, used: bool)
    requires WellFormed(bs) && Stored(m, bs) && i < |bs|
    ensures var b := bs[i].(used := used); Stored(m[b.addr + 4 := SizeField(b)], bs[i := b])
  {
    var b := bs[i].(used := used);
    var m', bs' := m[b.addr + 4 := SizeField(b)], bs[i := b];
    forall j | 0 <= j < |bs| ensures HeaderOk(m', bs', j) {
      assert HeaderOk(m, bs, j);
      assert i < j ==> End(bs[i]) <= bs[j].addr;
      assert j < i ==> End(bs[j]) <= bs[i].addr;
    }
  }

  lemma FlagSet(m: Memory, bs: seq<Block>, i: nat, used: bool)
    requires WellFormed(bs) && Stored(m, bs) && i < |bs| && (i > 0 || used)
    ensures var b := bs[i].(used := used);
            var m' := m[b.addr + 4 := SizeField(b)];
            WellFormed(bs[i := b]) && Stored(m', bs[i := b]) && PayloadsKept(m, m', bs)
  {
    SetFlag(m, bs, i, used);
    var r := bs[i := bs[i].(used := used)];
    forall j | 0 <= j < |bs| ensures r[j].addr == bs[j].addr && r[j].size == bs[j].size {
    }
  }

  /** Linking one more block behind the top one. */
  lemma Link(m: Memory, bs: seq<Block>, b: Block)
    requires WellFormed(bs) && Stored(m, bs) && End(bs[|bs| - 1]) <= b.addr
    requires Word(m, b.addr) == 0 && Word(m, b.addr + 4) == SizeField(b)
    ensures Stored(m[bs[|bs| - 1].addr := b.addr], bs + [b])
  {
    var n := |bs| - 1;
    var m', bs' := m[bs[n].addr := b.addr], bs + [b];
    forall j | 0 <= j < |bs'| ensures HeaderOk(m', bs', j) {
      if j <= n {
        assert HeaderOk(m, bs, j);
        assert j < n ==> End(bs[j]) <= bs[n].addr;
      }
    }
  }

  /** Writing behind the last block disturbs no header. */
  lemma WriteBehind(m: Memory, bs: seq<Block>, a: nat, v: nat)
    requires WellFormed(bs) && Stored(m, bs) && End(bs[|bs| - 1]) <= a
    ensures Stored(m[a := v], bs)
  {
    var n, m' := |bs| - 1, m[a := v];
    forall j | 0 <= j < |bs| ensures HeaderOk(m', bs, j) {
      assert HeaderOk(m, bs, j);
      assert j < n ==> End(bs[j]) <= bs[n].addr;
    }
  }

  /** Memory after the writes of `mem_new_block`: the new header, then the filler's size (its next
      field is written only by the link that follows), then the links. */
  function Extended(m: Memory, top: Block, a: nat, size: nat): Memory {
    var m1 := m[a + 4 := size + 1][a := 0];
    var f := Filler(top, a);
    if f == [] then m1[top.addr := a]
    else m1[f[0].addr + 4 := f[0].size][top.addr := f[0].addr][f[0].addr := a]
  }

  lemma ExtendedStored(m: Memory, bs: seq<Block>, a: nat, size: nat)
    requires WellFormed(bs) && Stored(m, bs) && End(bs[|bs| - 1]) <= a && a % 4 == 0 && size % 4 == 0
    ensures Stored(Extended(m, bs[|bs| - 1], a, size), bs + Filler(bs[|bs| - 1], a) + [Block(a, size, true)])
  {
    var top, b := bs[|bs| - 1], Block(a, size, true);
    var f := Filler(top, a);
    FillerBridges(top, a);
    WriteBehind(m, bs, a + 4, size + 1);
    WriteBehind(m[a + 4 := size + 1], bs, a, 0);
    var m1 := m[a + 4 := size + 1][a := 0];
    if f == [] {
      Link(m1, bs, b);
      assert bs + f == bs;
    } else {
      ExtendedStoredFiller(m1, bs, f[0], b);
      assert bs + f == bs + [f[0]];
    }
  }

  lemma ExtendedStoredFiller(m: Memory, bs: seq<Block>, f: Block, b: Block)
    requires WellFormed(bs) && Stored(m, bs) && End(bs[|bs| - 1]) == f.addr && End(f) == b.addr
    requires f.addr % 4 == 0 && f.size % 4 == 0 && !f.used && f.size > 0
    requires Word(m, b.addr) == 0 && Word(m, b.addr + 4) == SizeField(b)
    ensures Stored(m[f.addr + 4 := f.size][bs[|bs| - 1].addr := f.addr][f.addr := b.addr], bs + [f] + [b])
  {
    var t := bs[|bs| - 1].addr;
    var m1 := m[f.addr + 4 := f.size];
    WriteBehind(m, bs, f.addr + 4, f.size);
    WriteBehind(m1, bs, f.addr, 0);
    var m2 := m1[f.addr := 0];
    Link(m2, bs, f);
    AppendWellFormed(bs, f);
    Link(m2[t := f.addr], bs + [f], b);
    var m3: Memory, m4: Memory := m2[t := f.addr], m1[t := f.addr];
    assert m3[f.addr := b.addr] == m4[f.addr := b.addr];
  }

  lemma ExtendedKeepsPayloads(m: Memory, bs: seq<Block>, a: nat, size: nat)
    requires WellFormed(bs) && End(bs[|bs| - 1]) <= a && a % 4 == 0
    ensures PayloadsKept(m, Extended(m, bs[|bs| - 1], a, size), bs)
  {
    FillerBridges(bs[|bs| - 1], a);
  }

  lemma ExtendedFacts(m: Memory, bs: seq<Block>, size: nat, align: nat)
    requires WellFormed(bs) && Stored(m, bs) && size % 4 == 0 && align > 0 && align % 4 == 0
    ensures var m' := Extended(m, bs[|bs| - 1], NewAddr(bs[|bs| - 1], align), size);
            && WellFormed(Extend(bs, size, align)) && Stored(m', Extend(bs, size, align))
            && PayloadsKept(m, m', bs)
    ensures var r := Extend(bs, size, align);
            r != [] && r[0] == bs[0] && r[|r| - 1].addr == NewAddr(bs[|bs| - 1], align)
  {
    var a := NewAddr(bs[|bs| - 1], align);
    NewAddrAligned(bs[|bs| - 1], align);
    ExtendedStored(m, bs, a, size);
    ExtendedKeepsPayloads(m, bs, a, size);
    ExtendWellFormed(bs, size, align);
  }

  /** The used flag is the lowest bit of the size field. */
  lemma FieldBits(b: Block)
    requires b.size % 4 == 0
    ensures SizeField(b) / 2 * 2 == b.size && (SizeField(b) % 2 == 1 <==> b.used)
  {
    var k := b.size / 4;
    assert b.size == 4 * k;
    Halves(2 * k, if b.used then 1 else 0);
  }

  lemma Halves(n: nat, f: nat)
    requires f < 2
    ensures (2 * n + f) / 2 == n && (2 * n + f) % 2 == f
  {
  }

  class BlockList {
    var memory: Memory
    var bottom: nat
    var top: nat
    ghost var blocks: seq<Block>

    ghost predicate Valid()
      reads this
    {
      && (blocks == [] <==> top == 0) && (blocks == [] <==> bottom == 0)
      && (blocks != [] ==>
            && WellFormed(blocks) && Stored(memory, blocks)
            && bottom == blocks[0].addr && top == blocks[|blocks| - 1].addr)
    }

    constructor ()
      ensures Valid() && blocks == []
    {
      memory, bottom, top, blocks := map[], 0, 0, [];
    }

    /** The first header: an empty used block. */
    method Start(addr: nat)
      requires Valid() && blocks == [] && addr > 0 && addr % 4 == 0
      modifies this
      ensures Valid() && blocks == [Block(addr, 0, true)]
    {
      bottom, top := addr, addr;
      memory := memory[addr + 4 := 1];
      memory := memory[addr := 0];
      blocks := [Block(addr, 0, true)];
      assert HeaderOk(memory, blocks, 0);
    }

    /** `mem_find_block`: the first free block that is large and aligned enough, 0 for none. */
    method FindBlock(size: nat, align: nat) returns (block: nat, ghost i: nat)
      requires Valid() && align > 0
      ensures i == FindFrom(blocks, size, align, 0)
      ensures var k := FindFrom(blocks, size, align, 0); block == if k < |blocks| then blocks[k].addr else 0
    {
      i := 0;
      if bottom == 0 {
        return 0, 0;
      }
      block := bottom;
      var found := Suitable(block, size, align, i);
      while !found
        invariant 0 <= i < |blocks| && block == blocks[i].addr && found == Suits(blocks[i], size, align)
        invariant FindFrom(blocks, size, align, 0) == FindFrom(blocks, size, align, i)
        decreases |blocks| - i
      {
        assert HeaderOk(memory, blocks, i);
        block := Word(memory, block);
        i := i + 1;
        if block == 0 {
          return;
        }
        found := Suitable(block, size, align, i);
      }
    }

    /** The test of the search loop, on a header in memory. */
    method Suitable(block: nat, size: nat, align: nat, ghost i: nat) returns (ok: bool)
      requires Valid() && align > 0 && i < |blocks| && block == blocks[i].addr
      ensures ok == Suits(blocks[i], size, align)
    {
      FlagIsLowBit(i);
      var f := Word(memory, block + 4);
      ok := !(f / 2 * 2 < size || f % 2 == 1 || (block + HEADER) % align != 0);
    }

    lemma FlagIsLowBit(i: nat)
      requires Valid() && i < |blocks|
      ensures var f := Word(memory, blocks[i].addr + 4);
              f / 2 * 2 == blocks[i].size && (f % 2 == 1 <==> blocks[i].used)
    {
      assert HeaderOk(memory, blocks, i);
      FieldBits(blocks[i]);
    }

    /** The size field of a block without its used flag. */
    method SizeOf(block: nat, ghost i: nat) returns (size: nat)
      requires Valid() && i < |blocks| && block == blocks[i].addr
      ensures size == blocks[i].size
    {
      FlagIsLowBit(i);
      size := Word(memory, block + 4) / 2 * 2;
    }

    /** Sets or clears the used flag of a block. */
    method Mark(block: nat, used: bool, ghost i: nat)
      requires Valid() && i < |blocks| && block == blocks[i].addr && (i > 0 || used)
      modifies this`memory, this`blocks
      ensures Valid() && blocks == old(blocks)[i := old(blocks)[i].(used := used)]
      ensures Word(memory, block + 4) == SizeField(blocks[i])
      ensures PayloadsKept(old(memory), memory, old(blocks))
    {
      FlagSet(memory, blocks, i, used);
      var f := SizeOf(block, i);
      Overwrite(block + 4, if used then f + 1 else f, blocks[i := blocks[i].(used := used)]);
    }

    /** One write that turns the list in memory into `r`, whose first and last headers stay in place. */
    method Overwrite(a: nat, v: nat, ghost r: seq<Block>)
      requires Valid() && blocks != [] && WellFormed(r) && Stored(memory[a := v], r)
      requires r[0].addr == blocks[0].addr && r[|r| - 1].addr == blocks[|blocks| - 1].addr
      modifies this`memory, this`blocks
      ensures Valid() && blocks == r && memory == old(memory)[a := v]
    {
      memory := memory[a := v];
      blocks := r;
    }

    /** Where the top block ends. */
    method TopEnd() returns (end: nat)
      requires Valid() && blocks != []
      ensures end == End(blocks[|blocks| - 1])
    {
      var size := SizeOf(top, |blocks| - 1);
      end := top + OVERHEAD + size;
    }

    /** `mem_new_block`: a used block at the end of the list, behind a filler if the gap that
        alignment leaves is large enough for one. */
    method NewBlock(size: nat, align: nat) returns (block: nat)
      requires Valid() && blocks != [] && size % 4 == 0 && align > 0 && align % 4 == 0
      modifies this
      ensures Valid() && blocks == Extend(old(blocks), size, align) && block == blocks[|blocks| - 1].addr
      ensures PayloadsKept(old(memory), memory, old(blocks))
    {
      var end := TopEnd();
      block := NextHeader(end, align);
      ExtendedFacts(memory, blocks, size, align);
      Install(block, size, end, Extend(blocks, size, align));
    }

    /** The writes of `mem_new_block` turn the list in memory into `r`. */
    method Install(block: nat, size: nat, end: nat, ghost r: seq<Block>)
      requires Valid() && blocks != [] && end == End(blocks[|blocks| - 1]) && block > 0
      requires r != [] && WellFormed(r) && r[0] == blocks[0] && r[|r| - 1].addr == block
      requires Stored(Extended(memory, blocks[|blocks| - 1], block, size), r)
      requires PayloadsKept(memory, Extended(memory, blocks[|blocks| - 1], block, size), blocks)
      modifies this
      ensures Valid() && blocks == r
      ensures PayloadsKept(old(memory), memory, old(blocks))
    {
      Write(block, size, end);
      blocks := r;
    }

    /** The memory writes of `mem_new_block`. */
    method Write(block: nat, size: nat, end: nat)
      requires Valid() && blocks != [] && end == End(blocks[|blocks| - 1])
      modifies this`memory, this`top
      ensures top == block
      ensures memory == Extended(old(memory), blocks[|blocks| - 1], block, size)
    {
      memory := memory[block + 4 := size + 1];
      memory := memory[block := 0];
      var next := AlignTo(end + HEADER, MIN_ALIGN) - HEADER;
      if block - next > OVERHEAD + MIN_ALIGN {
        memory := memory[next + 4 := block - next - OVERHEAD];
        memory := memory[top := next];
        top := next;
      }
      memory := memory[top := block];
      top := block;
    }
  }
}
