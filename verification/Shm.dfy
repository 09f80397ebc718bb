/** Shared-memory objects and the physical frames they own. */
module Shm {
  import opened Arithmetic
  import opened Sequences
  import opened PmmSpec
  import opened Pmm

  const MAX_OBJECTS := 64

  /** A slot of the object table; id 0 marks a free slot. */
  datatype Object = Object(id: nat, sizeBytes: nat, pages: seq<nat>, refcount: nat)

  const NO_OBJECT := Object(0, 0, [], 0)

  /** Frame numbers of a list of page addresses. */
  ghost function Frames(pages: seq<nat>): (s: set<nat>)
    ensures forall i :: 0 <= i < |pages| ==> pages[i] / BLOCK_SIZE in s
  {
    set i | 0 <= i < |pages| :: pages[i] / BLOCK_SIZE
  }

  /** Page addresses as the frame allocator hands them out, no frame twice. */
  ghost predicate PagesOk(pages: seq<nat>) {
    && (forall i :: 0 <= i < |pages| ==> BLOCK_SIZE <= pages[i] < TWO32)
    && (forall i, j :: 0 <= i < j < |pages| ==> pages[i] / BLOCK_SIZE != pages[j] / BLOCK_SIZE)
  }

  lemma FramesSnoc(pages: seq<nat>, p: nat)
    ensures Frames(pages + [p]) == Frames(pages) + {p / BLOCK_SIZE}
  {
    var ps := pages + [p];
    assert ps[|pages|] == p;
    forall x | x in Frames(pages) ensures x in Frames(ps) {
      var i :| 0 <= i < |pages| && pages[i] / BLOCK_SIZE == x;
      assert ps[i] == pages[i];
    }
  }

  lemma FramesUncons(pages: seq<nat>)
    requires pages != [] && PagesOk(pages)
    ensures Frames(pages) == {pages[0] / BLOCK_SIZE} + Frames(pages[1..])
    ensures pages[0] / BLOCK_SIZE !in Frames(pages[1..])
    ensures PagesOk(pages[1..])
  {
    assert pages == [pages[0]] + pages[1..];
    forall x | x in Frames(pages) && x != pages[0] / BLOCK_SIZE ensures x in Frames(pages[1..]) {
      var i :| 0 <= i < |pages| && pages[i] / BLOCK_SIZE == x;
      assert pages[1..][i - 1] == pages[i];
    }
  }

  lemma SnocOk(pages: seq<nat>, p: nat)
    requires PagesOk(pages) && BLOCK_SIZE <= p < TWO32 && p / BLOCK_SIZE !in Frames(pages)
    ensures PagesOk(pages + [p]) && Frames(pages + [p]) == Frames(pages) + {p / BLOCK_SIZE}
  {
    FramesSnoc(pages, p);
  }

  ghost predicate Disjoint(objs: seq<Object>, used: set<nat>) {
    && (forall i :: 0 <= i < |objs| ==> PagesOk(objs[i].pages) && Frames(objs[i].pages) <= used)
    && (forall i, j :: 0 <= i < j < |objs| ==> Frames(objs[i].pages) !! Frames(objs[j].pages))
    && (forall i :: 0 <= i < |objs| && objs[i].id == 0 ==> objs[i].pages == [])
  }

  /** A new object on frames nobody used keeps everything disjoint. */
  lemma DisjointAdd(objs: seq<Object>, used: set<nat>, i: nat, o: Object)
    requires Disjoint(objs, used) && i < |objs| && objs[i].pages == []
    requires PagesOk(o.pages) && Frames(o.pages) !! used && o.id != 0
    ensures Disjoint(objs[i := o], used + Frames(o.pages))
  {
  }

  lemma CountedReference(objs: seq<Object>, used: set<nat>, i: nat, refs: nat)
    requires Disjoint(objs, used) && i < |objs|
    ensures Disjoint(objs[i := objs[i].(refcount := refs)], used)
  {
    assert forall j :: 0 <= j < |objs| ==> objs[i := objs[i].(refcount := refs)][j].pages == objs[j].pages;
  }

  lemma DisjointDrop(objs: seq<Object>, used: set<nat>, i: nat)
    requires Disjoint(objs, used) && i < |objs|
    ensures Disjoint(objs[i := NO_OBJECT], used - Frames(objs[i].pages))
  {
    assert Frames(NO_OBJECT.pages) == {};
  }

  /** The first slot from `k` on with this id, or the table size. */
  function FirstWith(objs: seq<Object>, id: nat, k: nat): (i: nat)
    requires k <= |objs|
    ensures k <= i <= |objs| && (i < |objs| ==> objs[i].id == id)
    ensures forall j :: k <= j < i ==> objs[j].id != id
    decreases |objs| - k
  {
    if k == |objs| || objs[k].id == id then k else FirstWith(objs, id, k + 1)
  }

  /** How taking `n` pages one by one ends, when the counter says that `spare` blocks are left and
      `free` frames can be found: the kernel stops if the counter is the first to reach its end, the
      call fails if the frames are. */
  datatype Outcome = Taken | NoFrames | Stopped

  function Taking(n: nat, spare: nat, free: nat): Outcome {
    if n <= spare && n <= free then Taken else if spare <= free then Stopped else NoFrames
  }

  /** Page by page: nothing left to take, no count left, no frame left, or one of each taken. */
  lemma TakingIs(n: nat, spare: nat, free: nat)
    ensures Taking(n, spare, free) ==
            if n == 0 then Taken else if spare == 0 then Stopped else if free == 0 then NoFrames
            else Taking(n - 1, spare - 1, free - 1)
  {
  }

  class Table {
    const pmm: Manager
    var objs: seq<Object>
    var nextId: nat

    ghost predicate Valid()
      reads this, pmm, pmm.bitmap
    {
      && pmm.Valid() && |objs| == MAX_OBJECTS && nextId < TWO32
      && Disjoint(objs, pmm.Used())
    }

    constructor (pmm: Manager)
      requires pmm.Valid()
      ensures Valid() && this.pmm == pmm
      ensures forall i :: 0 <= i < |objs| ==> objs[i] == NO_OBJECT
    {
      this.pmm := pmm;
      objs := seq(MAX_OBJECTS, _ => NO_OBJECT);
      nextId := 1;
      new;
      assert Frames([]) == {};
    }

    /** The first slot with this id, or the table size. */
    method Find(id: nat) returns (k: nat)
      ensures k == FirstWith(objs, id, 0)
    {
      k := 0;
      while k < |objs|
        invariant k <= |objs| && FirstWith(objs, id, k) == FirstWith(objs, id, 0)
      {
        if objs[k].id == id {
          return;
        }
        k := k + 1;
      }
    }

    /** Gives back the pages of a list, in order. */
    method FreeAll(pages: seq<nat>)
      requires pmm.Valid() && PagesOk(pages)
      modifies pmm`usedBlocks, pmm.bitmap
      ensures pmm.Valid() && pmm.Used() == old(pmm.Used()) - Frames(pages)
      ensures pmm.usedBlocks == Counted(old(pmm.usedBlocks), -|pages|)
    {
      ghost var u, c := pmm.Used(), pmm.usedBlocks;
      NotCounted(c);
      WholeSequence(pages);
      for j := 0 to |pages|
        invariant pmm.Valid() && PagesOk(pages[j..])
        invariant pmm.Used() - Frames(pages[j..]) == u - Frames(pages)
        invariant pmm.usedBlocks == Counted(c, -j)
      {
        StepAlong(pages, j);
        CountedOn(c, -j, -1);
        FreeFirst(pages[j..]);
      }
      assert Frames(pages[|pages|..]) == {};
    }

    method FreeFirst(pages: seq<nat>)
      requires pmm.Valid() && pages != [] && PagesOk(pages)
      modifies pmm`usedBlocks, pmm.bitmap
      ensures pmm.Valid() && PagesOk(pages[1..])
      ensures pmm.Used() - Frames(pages[1..]) == old(pmm.Used()) - Frames(pages)
      ensures pmm.usedBlocks == Counted(old(pmm.usedBlocks), -1)
    {
      FramesUncons(pages);
      pmm.FreePage(pages[0]);
    }

    /** The frames single pages can be taken from. */
    ghost function Choices(): nat
      requires pmm.bitmap.Length == WORDS
      reads pmm, pmm.bitmap
    {
      |FreeFrames(pmm.Used(), pmm.Limit())|
    }

    /** One page nobody used, exactly if there is one; the kernel stops when the counter says that
        nothing is left. */
    method TakePage() returns (halted: bool, phys: nat)
      requires pmm.Valid()
      modifies pmm`usedBlocks, pmm.bitmap
      ensures pmm.Valid() && halted == (old(pmm.Spare()) == 0)
      ensures phys == 0 <==> halted || old(Choices()) == 0
      ensures phys == 0 ==> pmm.Used() == old(pmm.Used()) && pmm.usedBlocks == old(pmm.usedBlocks)
      ensures phys != 0 ==>
                && BLOCK_SIZE <= phys < TWO32 && phys / BLOCK_SIZE !in old(pmm.Used())
                && pmm.Used() == old(pmm.Used()) + {phys / BLOCK_SIZE}
                && pmm.usedBlocks == Counted(old(pmm.usedBlocks), 1)
                && pmm.Spare() == old(pmm.Spare()) - 1 && Choices() == old(Choices()) - 1
    {
      LowestIs(pmm.Used(), pmm.Limit(), 1);
      OnePageIff(pmm.Used(), pmm.Limit());
      if pmm.Spare() != 0 {
        SpareLess(pmm.maxBlocks, pmm.usedBlocks);
      }
      halted, phys := pmm.AllocPage();
    }

    lemma SpareLess(max: nat, count: nat)
      requires (max - count) % TWO32 != 0
      ensures (max - Counted(count, 1)) % TWO32 == (max - count) % TWO32 - 1
    {
      var q := (count + 1) / TWO32;
      assert max - Counted(count, 1) == max - count - 1 + TWO32 * q;
      ShiftMod(max - count - 1, q);
    }

    /** Takes `n` single pages, or gives back what it got and takes none. */
    method AllocAll(n: nat) returns (halted: bool, ok: bool, pages: seq<nat>)
      requires pmm.Valid()
      modifies pmm`usedBlocks, pmm.bitmap
      ensures pmm.Valid()
      ensures match Taking(n, old(pmm.Spare()), old(Choices()))
              case Stopped => halted
              case NoFrames => !halted && !ok && pmm.Used() == old(pmm.Used()) && pmm.usedBlocks == old(pmm.usedBlocks)
              case Taken =>
                && !halted && ok && |pages| == n && PagesOk(pages)
                && Frames(pages) !! old(pmm.Used()) && pmm.Used() == old(pmm.Used()) + Frames(pages)
    {
      ghost var u, c, spare, free := pmm.Used(), pmm.usedBlocks, pmm.Spare(), Choices();
      halted, ok, pages := false, true, [];
      NothingTaken();
      for i := 0 to n
        invariant pmm.Valid() && Took(pages, i, u, c)
        invariant i <= spare && pmm.Spare() == spare - i && i <= free && Choices() == free - i
      {
        var phys;
        halted, phys := TakeNext(pages, i, u, c);
        if halted {
          return;
        }
        if phys == 0 {
          GiveAllBack(pages, i, u, c);
          ok := false;
          return;
        }
        pages := pages + [phys];
      }
    }

    lemma NothingTaken()
      requires pmm.Valid()
      ensures Took([], 0, pmm.Used(), pmm.usedBlocks)
    {
      assert Frames([]) == {};
      NotCounted(pmm.usedBlocks);
    }

    /** One more page. */
    method TakeNext(pages: seq<nat>, ghost i: nat, ghost u: set<nat>, ghost c: nat) returns (halted: bool, phys: nat)
      requires pmm.Valid() && Took(pages, i, u, c)
      modifies pmm`usedBlocks, pmm.bitmap
      ensures pmm.Valid() && halted == (old(pmm.Spare()) == 0) && (phys == 0 <==> halted || old(Choices()) == 0)
      ensures phys == 0 ==> Took(pages, i, u, c)
      ensures phys != 0 ==>
                && Took(pages + [phys], i + 1, u, c)
                && pmm.Spare() == old(pmm.Spare()) - 1 && Choices() == old(Choices()) - 1
    {
      halted, phys := TakePage();
      if phys != 0 {
        CountedOn(c, i, 1);
        SnocOk(pages, phys);
      }
    }

    /** So far `i` pages were taken from a manager with used frames `u` and counter `c`. */
    ghost predicate Took(pages: seq<nat>, i: nat, u: set<nat>, c: nat)
      requires pmm.bitmap.Length == WORDS
      reads pmm, pmm.bitmap
    {
      && c < TWO32 && |pages| == i && PagesOk(pages) && Frames(pages) !! u
      && pmm.Used() == u + Frames(pages) && pmm.usedBlocks == Counted(c, i)
    }

    method GiveAllBack(pages: seq<nat>, ghost i: nat, ghost u: set<nat>, ghost c: nat)
      requires pmm.Valid() && Took(pages, i, u, c)
      modifies pmm`usedBlocks, pmm.bitmap
      ensures pmm.Valid() && pmm.Used() == u && pmm.usedBlocks == c
    {
      FreeAll(pages);
      CountedOn(c, i, -(i as int));
      NotCounted(c);
    }

    /** What `shm_create` answers: it needs a size, a free slot, memory for the page list, and then
        it takes its pages one by one. */
    ghost function Creating(sizeBytes: nat, memory: bool): Outcome
      requires pmm.bitmap.Length == WORDS
      reads this, pmm, pmm.bitmap
    {
      if sizeBytes == 0 || FirstWith(objs, 0, 0) == |objs| || !memory then NoFrames
      else Taking(DivideUp(sizeBytes), pmm.Spare(), Choices())
    }

    /** It succeeds exactly with a size, a free slot, memory for the page list, and as many pages as cover
        the size both by the counter and in the bitmap; the kernel stops exactly when only the counter, or
        the counter first, falls short. */
    lemma CreatingIff(sizeBytes: nat, memory: bool)
      requires pmm.bitmap.Length == WORDS
      ensures var n := DivideUp(sizeBytes);
              var asked := sizeBytes > 0 && memory && exists j :: 0 <= j < |objs| && objs[j].id == 0;
              && (Creating(sizeBytes, memory) == Taken <==> asked && n <= pmm.Spare() && n <= Choices())
              && (Creating(sizeBytes, memory) == Stopped <==> asked && pmm.Spare() < n && pmm.Spare() <= Choices())
    {
      TakingIs(DivideUp(sizeBytes), pmm.Spare(), Choices());
    }

    /** `shm_create`; `memory` says whether the kernel heap has room for the page list. */
    method Create(sizeBytes: nat, memory: bool) returns (halted: bool, ret: int, id: nat)
      requires Valid() && sizeBytes < TWO32
      modifies this, pmm`usedBlocks, pmm.bitmap
      ensures match old(Creating(sizeBytes, memory))
              case Stopped => halted
              case NoFrames =>
                && !halted && Valid() && ret == -1 && objs == old(objs)
                && pmm.Used() == old(pmm.Used()) && pmm.usedBlocks == old(pmm.usedBlocks)
              case Taken =>
                var i := FirstWith(old(objs), 0, 0);
                && !halted && Valid() && ret == 0 && id != 0 && i < |old(objs)| == |objs|
                && objs == old(objs)[i := objs[i]]
                && objs[i].id == id && objs[i].sizeBytes == sizeBytes && objs[i].refcount == 1
                && |objs[i].pages| == DivideUp(sizeBytes)
                && Frames(objs[i].pages) !! old(pmm.Used()) && pmm.Used() == old(pmm.Used()) + Frames(objs[i].pages)
    {
      halted, ret, id := false, -1, 0;
      if sizeBytes == 0 {
        return;
      }
      var slot := Find(0);
      if slot == |objs| || !memory {
        return;
      }
      var pages, ok;
      halted, ok, pages := AllocAll(DivideUp(sizeBytes));
      if halted || !ok {
        return;
      }
      id := NewId();
      var o := Object(id, sizeBytes, pages, 1);
      DisjointAdd(objs, old(pmm.Used()), slot, o);
      objs := objs[slot := o];
      ret := 0;
    }

    /** The next id that is not 0. */
    method NewId() returns (id: nat)
      requires nextId < TWO32
      modifies this`nextId
      ensures id == (if old(nextId) == 0 then 1 else old(nextId)) && nextId < TWO32
    {
      id := nextId;
      nextId := (nextId + 1) % TWO32;
      if id == 0 {
        id := nextId;
        nextId := nextId + 1;
      }
    }

    /** The reference taken by `shm_map`; `mapped` says whether the page tables could be filled. */
    method Map(id: nat, mapped: bool) returns (ok: bool)
      requires Valid()
      modifies this`objs
      ensures Valid()
      ensures var k := FirstWith(old(objs), id, 0);
              && (ok <==> k < |old(objs)| && id != 0 && old(objs)[k].pages != [] && mapped)
              && objs == if ok then old(objs)[k := old(objs)[k].(refcount := (old(objs)[k].refcount + 1) % TWO32)]
                         else old(objs)
    {
      var k := Find(id);
      if k == |objs| || objs[k].id == 0 || objs[k].pages == [] || !mapped {
        return false;
      }
      CountedReference(objs, pmm.Used(), k, (objs[k].refcount + 1) % TWO32);
      objs := objs[k := objs[k].(refcount := (objs[k].refcount + 1) % TWO32)];
      ok := true;
    }

    /** `shm_close`: the close that drops the last reference gives back exactly the frames of
        that object. */
    method Close(id: nat) returns (ret: int)
      requires Valid()
      modifies this`objs, pmm`usedBlocks, pmm.bitmap
      ensures Valid()
      ensures var k := FirstWith(old(objs), id, 0);
              if id == 0 || k == |old(objs)| then ret == -1 && objs == old(objs) && pmm.Used() == old(pmm.Used())
              else if old(objs)[k].refcount <= 1 then
                && ret == 0 && objs == old(objs)[k := NO_OBJECT]
                && pmm.Used() == old(pmm.Used()) - Frames(old(objs)[k].pages)
              else
                && ret == 0 && objs == old(objs)[k := old(objs)[k].(refcount := old(objs)[k].refcount - 1)]
                && pmm.Used() == old(pmm.Used())
    {
      var k := Find(id);
      if k == |objs| || objs[k].id == 0 {
        return -1;
      }
      ghost var o := objs[k];
      if objs[k].refcount > 0 {
        CountedReference(objs, pmm.Used(), k, objs[k].refcount - 1);
        objs := objs[k := objs[k].(refcount := objs[k].refcount - 1)];
      }
      if objs[k].refcount == 0 {
        DisjointDrop(old(objs), pmm.Used(), k);
        FreeAll(objs[k].pages);
        objs := objs[k := NO_OBJECT];
        assert objs == old(objs)[k := NO_OBJECT];
      }
      ret := 0;
    }
  }
}
