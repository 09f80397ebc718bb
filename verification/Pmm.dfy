/** The frame bitmap of the physical memory manager. */
module Pmm {
  import opened Arithmetic
  import opened PmmSpec

  const WORDS := 32768
  const BLOCK_SIZE := 4096

  /** A 32-bit word of the bitmap, least significant bit first. */
  type Word = w: seq<bool> | |w| == 32 witness seq(32, _ => false)

  const FULL: Word := seq(32, _ => true)

  /** The block counter after a change, in 32-bit arithmetic. */
  function Counted(c: int, d: int): (r: nat)
    ensures r < TWO32
  {
    (c + d) % TWO32
  }

  lemma NotCounted(c: nat)
    requires c < TWO32
    ensures Counted(c, 0) == c
  {
    SmallMod(c);
  }

  /** Two changes add up. */
  lemma CountedOn(c: int, d: int, e: int)
    ensures Counted(Counted(c, d), e) == Counted(c, d + e)
  {
    var q := (c + d) / TWO32;
    assert c + d == TWO32 * q + Counted(c, d);
    ShiftMod(Counted(c, d) + e, q);
  }

  lemma LargeAddress(k: nat)
    ensures k * LARGE * BLOCK_SIZE % (LARGE * BLOCK_SIZE) == 0
    ensures k * LARGE * BLOCK_SIZE / BLOCK_SIZE == k * LARGE
  {
  }

  /** Blocks needed for so many bytes. */
  function DivideUp(n: nat): (b: nat)
    ensures (b - 1) * BLOCK_SIZE < n <= b * BLOCK_SIZE
  {
    if n % BLOCK_SIZE == 0 then n / BLOCK_SIZE else 1 + n / BLOCK_SIZE
  }

  /** Goes through the bits of one word, which holds the frames from `base` on; `done` when `n`
      free frames in a row end in it. */
  method ScanWord(word: Word, base: nat, n: nat, first0: nat, count0: nat, ghost used: set<nat>, ghost limit: nat)
    returns (done: bool, first: nat, count: nat)
    requires 0 in used && base + 32 <= limit && Scanned(used, n, base, first0, count0)
    requires forall j :: 0 <= j < 32 ==> (word[j] <==> base + j in used)
    ensures !done ==> Scanned(used, n, base + 32, first, count)
    ensures done && n == 0 ==> first == 0
    ensures done && n > 0 ==> first > 0 && IsLowestRun(used, limit, n, first)
  {
    done, first, count := false, first0, count0;
    for j := 0 to 32
      invariant Scanned(used, n, base + j, first, count)
    {
      ScanBit(used, limit, n, base + j, first, count);
      if !word[j] {
        if first == 0 {
          first := base + j;
        }
        count := count + 1;
      } else {
        first, count := 0, 0;
      }
      if count == n {
        done := true;
        return;
      }
    }
  }

  class Manager {
    const bitmap: array<Word>
    const maxBlocks: nat
    var usedBlocks: nat

    /** Frame 0 is never free: `pmm_init_region` puts it back after every region. */
    ghost predicate Valid()
      reads this, bitmap
    {
      Shape() && Taken(0)
    }

    ghost predicate Shape()
      reads this
    {
      bitmap.Length == WORDS && maxBlocks <= FRAMES && usedBlocks < TWO32
    }

    ghost predicate Taken(f: nat)
      requires bitmap.Length == WORDS && f < FRAMES
      reads bitmap
    {
      bitmap[f / 32][f % 32]
    }

    /** The set of used frames. */
    ghost function Used(): (u: set<nat>)
      requires bitmap.Length == WORDS
      reads bitmap
      ensures forall f: nat :: f in u <==> f < FRAMES && Taken(f)
    {
      set f: nat | f < FRAMES && Taken(f)
    }

    /** The searches look at whole words only. */
    function Limit(): nat { maxBlocks / 32 * 32 }

    /** All frames start out used. */
    constructor (maxBlocks: nat)
      requires maxBlocks <= FRAMES
      ensures Valid() && this.maxBlocks == maxBlocks && usedBlocks == maxBlocks
      ensures Used() == Range(0, FRAMES)
      ensures fresh(bitmap)
    {
      this.maxBlocks := maxBlocks;
      usedBlocks := maxBlocks;
      bitmap := new Word[WORDS](_ => FULL);
      new;
    }

    method MmapSet(bit: nat)
      requires Shape() && bit < FRAMES
      modifies this`usedBlocks, bitmap
      ensures Shape() && Used() == old(Used()) + {bit}
      ensures usedBlocks == Counted(old(usedBlocks), 1)
    {
      bitmap[bit / 32] := bitmap[bit / 32][bit % 32 := true];
      usedBlocks := (usedBlocks + 1) % TWO32;
      assert forall f: nat :: f < FRAMES ==> (Taken(f) <==> f == bit || old(Taken(f)));
    }

    method MmapUnset(bit: nat)
      requires Shape() && bit < FRAMES
      modifies this`usedBlocks, bitmap
      ensures Shape() && Used() == old(Used()) - {bit}
      ensures usedBlocks == Counted(old(usedBlocks), -1)
    {
      bitmap[bit / 32] := bitmap[bit / 32][bit % 32 := false];
      usedBlocks := (usedBlocks - 1) % TWO32;
      assert forall f: nat :: f < FRAMES ==> (Taken(f) <==> f != bit && old(Taken(f)));
    }

    /** `pmm_init_region`: frees the blocks of a region, but never the null block. */
    method InitRegion(addr: nat, size: nat)
      requires Shape() && addr / BLOCK_SIZE + DivideUp(size + addr % BLOCK_SIZE) <= FRAMES
      modifies this`usedBlocks, bitmap
      ensures Valid()
      ensures Used() == old(Used()) - Range(addr / BLOCK_SIZE, DivideUp(size + addr % BLOCK_SIZE)) + {0}
    {
      UnsetRange(addr / BLOCK_SIZE, DivideUp(size + addr % BLOCK_SIZE));
      MmapSet(0);
      assert 0 in Used();
    }

    method MmapTest(bit: nat) returns (r: bool)
      requires Shape() && bit < FRAMES
      ensures r <==> bit in Used()
    {
      r := bitmap[bit / 32][bit % 32];
    }

    lemma WordBit(i: nat, j: nat)
      requires bitmap.Length == WORDS && i < WORDS && j < 32
      ensures bitmap[i][j] <==> i * 32 + j in Used()
    {
      assert (i * 32 + j) / 32 == i && (i * 32 + j) % 32 == j;
    }

    /** The lowest start of `n` consecutive free frames, 0 if there is none (or `n` is 0). */
    method FindFreeFrame(n: nat) returns (f: nat)
      requires Valid()
      ensures f == if n == 0 then 0 else Lowest(Used(), Limit(), n)
    {
      var first: nat, count: nat := 0, 0;
      for i := 0 to maxBlocks / 32
        invariant Scanned(Used(), n, i * 32, first, count)
      {
        var done;
        done, first, count := ScanNext(i, n, first, count);
        if done {
          if n > 0 {
            LowestFromUnique(Used(), Limit(), n, 0, first);
          }
          return first;
        }
      }
      if n > 0 {
        LowestFromNone(Used(), Limit(), n, 0);
      }
      return 0;
    }

    /** The next word of the scan; words without a free frame are skipped. */
    method ScanNext(i: nat, n: nat, first0: nat, count0: nat) returns (done: bool, first: nat, count: nat)
      requires Valid() && i < maxBlocks / 32 && Scanned(Used(), n, i * 32, first0, count0)
      ensures !done ==> Scanned(Used(), n, (i + 1) * 32, first, count)
      ensures done && n == 0 ==> first == 0
      ensures done && n > 0 ==> first > 0 && IsLowestRun(Used(), Limit(), n, first)
    {
      forall j | 0 <= j < 32 ensures bitmap[i][j] <==> i * 32 + j in Used() {
        WordBit(i, j);
      }
      if bitmap[i] != FULL {
        done, first, count := ScanWord(bitmap[i], i * 32, n, first0, count0, Used(), Limit());
      } else {
        forall k | i * 32 <= k < i * 32 + 32 ensures k in Used() {
          assert bitmap[i][k - i * 32];
        }
        ScanUsed(Used(), n, i * 32, first0, count0, 32);
        done, first, count := false, 0, 0;
      }
    }

    /** The first free frame, 0 if there is none. */
    method FindFree() returns (f: nat)
      requires Valid()
      ensures f == Lowest(Used(), Limit(), 1)
    {
      for i := 0 to maxBlocks / 32
        invariant forall k :: 0 <= k < i * 32 ==> k in Used()
      {
        if bitmap[i] != FULL {
          for j := 0 to 32
            invariant forall k :: 0 <= k < i * 32 + j ==> k in Used()
          {
            WordBit(i, j);
            if !bitmap[i][j] {
              f := i * 32 + j;
              FirstFree(Used(), Limit(), f);
              return;
            }
          }
        } else {
          forall k | i * 32 <= k < i * 32 + 32 ensures k in Used() {
            WordBit(i, k - i * 32);
          }
        }
      }
      FirstFree(Used(), Limit(), Limit());
      return 0;
    }

    // ---- Allocation ----

    /** Free frames as the counter sees them, in 32-bit arithmetic. */
    function Spare(): nat
      reads this
    {
      (maxBlocks - usedBlocks) % TWO32
    }

    /** `pmm_alloc_page`: the kernel stops (`halted`) when the counter says that nothing is left. */
    method AllocPage() returns (halted: bool, addr: nat)
      requires Valid()
      modifies this`usedBlocks, bitmap
      ensures Valid() && halted == (old(Spare()) == 0)
      ensures var f := old(Lowest(Used(), Limit(), 1));
              if halted then addr == 0 && Used() == old(Used()) && usedBlocks == old(usedBlocks)
              else
                && addr == f * BLOCK_SIZE && f < FRAMES
                && Used() == (if f == 0 then old(Used()) else old(Used()) + {f})
                && usedBlocks == if f == 0 then old(usedBlocks) else Counted(old(usedBlocks), 1)
    {
      if Spare() == 0 {
        return true, 0;
      }
      halted := false;
      var block := FindFree();
      LowestIs(Used(), Limit(), 1);
      if block == 0 {
        return false, 0;
      }
      MmapSet(block);
      addr := block * BLOCK_SIZE;
    }

    /** Marks `n` frames from `first` on. */
    method SetRange(first: nat, n: nat)
      requires Shape() && first + n <= FRAMES
      modifies this`usedBlocks, bitmap
      ensures Shape() && Used() == old(Used()) + Range(first, n)
      ensures usedBlocks == Counted(old(usedBlocks), n)
    {
      ghost var u, c := Used(), usedBlocks;
      NotCounted(c);
      for i := 0 to n
        invariant Shape() && Used() == u + Range(first, i)
        invariant usedBlocks == Counted(c, i)
      {
        CountedOn(c, i, 1);
        SetNext(first + i, u, Range(first, i));
        assert Range(first, i + 1) == Range(first, i) + {first + i};
      }
    }

    method SetNext(f: nat, ghost u: set<nat>, ghost done: set<nat>)
      requires Shape() && f < FRAMES && Used() == u + done
      modifies this`usedBlocks, bitmap
      ensures Shape() && Used() == u + (done + {f})
      ensures usedBlocks == Counted(old(usedBlocks), 1)
    {
      MmapSet(f);
    }

    /** Unmarks `n` frames from `first` on. */
    method UnsetRange(first: nat, n: nat)
      requires Shape() && first + n <= FRAMES
      modifies this`usedBlocks, bitmap
      ensures Shape() && Used() == old(Used()) - Range(first, n)
      ensures usedBlocks == Counted(old(usedBlocks), -(n as int))
    {
      ghost var u, c := Used(), usedBlocks;
      NotCounted(c);
      for i := 0 to n
        invariant Shape() && Used() == u - Range(first, i)
        invariant usedBlocks == Counted(c, -i)
      {
        CountedOn(c, -i, -1);
        UnsetNext(first + i, u, Range(first, i));
        assert Range(first, i + 1) == Range(first, i) + {first + i};
      }
    }

    method UnsetNext(f: nat, ghost u: set<nat>, ghost done: set<nat>)
      requires Shape() && f < FRAMES && Used() == u - done
      modifies this`usedBlocks, bitmap
      ensures Shape() && Used() == u - (done + {f})
      ensures usedBlocks == Counted(old(usedBlocks), -1)
    {
      MmapUnset(f);
    }

    /** `pmm_alloc_pages` */
    method AllocPages(n: nat) returns (addr: nat)
      requires Valid()
      modifies this`usedBlocks, bitmap
      ensures Valid()
      ensures var g := if old(Spare()) < n then {} else GrantRun(old(Used()), Limit(), n);
              && Used() == old(Used()) + g && usedBlocks == Counted(old(usedBlocks), if g == {} then 0 else n)
              && (addr == 0 <==> g == {})
              && (addr != 0 ==> g == Range(addr / BLOCK_SIZE, n) && addr % BLOCK_SIZE == 0)
    {
      NotCounted(usedBlocks);
      if Spare() < n {
        return 0;
      }
      var first := FindFreeFrame(n);
      if first == 0 {
        return 0;
      }
      LowestIs(Used(), Limit(), n);
      assert first in Range(first, n);
      SetRange(first, n);
      addr := first * BLOCK_SIZE;
    }

    /** `pmm_alloc_aligned_large_page`: 4 MiB on a 4 MiB boundary, cut from an 8 MiB run. */
    method AllocAlignedLargePage() returns (addr: nat)
      requires Valid()
      modifies this`usedBlocks, bitmap
      ensures Valid()
      ensures var g := if old(Spare()) < 2 * LARGE then {} else GrantLarge(old(Used()), Limit());
              && Used() == old(Used()) + g && usedBlocks == Counted(old(usedBlocks), if g == {} then 0 else LARGE)
              && (addr == 0 <==> g == {})
              && (addr != 0 ==> g == Range(addr / BLOCK_SIZE, LARGE) && addr % (LARGE * BLOCK_SIZE) == 0)
    {
      NotCounted(usedBlocks);
      if Spare() < 2 * LARGE {
        return 0;
      }
      var free := FindFreeFrame(2 * LARGE);
      if free == 0 {
        return 0;
      }
      LowestIs(Used(), Limit(), 2 * LARGE);
      var aligned := AlignUp(free);
      assert aligned in Range(aligned, LARGE);
      LargeAddress(free / LARGE + 1);
      SetRange(aligned, LARGE);
      addr := aligned * BLOCK_SIZE;
    }

    /** `pmm_free_page`; giving back the null page would leave frame 0 free. */
    method FreePage(addr: nat)
      requires Valid() && addr < TWO32
      modifies this`usedBlocks, bitmap
      ensures Shape() && (addr >= BLOCK_SIZE ==> Valid()) && Used() == old(Used()) - {addr / BLOCK_SIZE}
      ensures usedBlocks == Counted(old(usedBlocks), -1)
    {
      assert 0 in Used();
      MmapUnset(addr / BLOCK_SIZE);
    }

    /** `pmm_free_pages` */
    method FreePages(addr: nat, n: nat)
      requires Valid() && addr / BLOCK_SIZE + n <= FRAMES
      modifies this`usedBlocks, bitmap
      ensures Shape() && (addr >= BLOCK_SIZE ==> Valid()) && Used() == old(Used()) - Range(addr / BLOCK_SIZE, n)
      ensures usedBlocks == Counted(old(usedBlocks), -(n as int))
    {
      assert 0 in Used();
      UnsetRange(addr / BLOCK_SIZE, n);
    }
  }
}
