/** Physical frames as a set of used frame numbers: what the allocator's searches must return. */
module PmmSpec {

  /** Frames below 4 GiB. */
  const FRAMES := 0x10_0000
  const LARGE := 1024

  ghost predicate RunFree(used: set<nat>, start: nat, n: nat) {
    forall k :: start <= k < start + n ==> k !in used
  }

  /** The lowest start at or after `g` of `n` consecutive free frames below `limit`; 0 if none. */
  ghost function LowestFrom(used: set<nat>, limit: nat, n: nat, g: nat): (f: nat)
    decreases limit - g
  {
    if g + n > limit || g >= limit then 0
    else if RunFree(used, g, n) then g
    else LowestFrom(used, limit, n, g + 1)
  }

  ghost function Lowest(used: set<nat>, limit: nat, n: nat): nat {
    LowestFrom(used, limit, n, 0)
  }

  ghost predicate IsLowestRun(used: set<nat>, limit: nat, n: nat, f: nat) {
    && f + n <= limit && RunFree(used, f, n)
    && forall g :: 0 <= g < f ==> !RunFree(used, g, n)
  }

  ghost predicate NoRun(used: set<nat>, limit: nat, n: nat) {
    forall g {:trigger RunFree(used, g, n)} :: 0 <= g && g + n <= limit ==> !RunFree(used, g, n)
  }

  lemma {:induction false} LowestFromIs(used: set<nat>, limit: nat, n: nat, g: nat)
    requires n >= 1 && 0 in used
    requires forall h :: 0 <= h < g ==> !RunFree(used, h, n)
    ensures var f := LowestFrom(used, limit, n, g);
            if f == 0 then NoRun(used, limit, n) else IsLowestRun(used, limit, n, f)
    decreases limit - g
  {
    if g + n > limit {
    } else if RunFree(used, g, n) {
      assert g != 0;
    } else {
      LowestFromIs(used, limit, n, g + 1);
    }
  }

  /** With frame 0 in use, 0 can stand for "none" without ambiguity. */
  lemma LowestIs(used: set<nat>, limit: nat, n: nat)
    requires n >= 1 && 0 in used
    ensures var f := Lowest(used, limit, n);
            if f == 0 then NoRun(used, limit, n) else IsLowestRun(used, limit, n, f)
  {
    LowestFromIs(used, limit, n, 0);
  }

  lemma {:induction false} LowestFromUnique(used: set<nat>, limit: nat, n: nat, g: nat, f: nat)
    requires n >= 1 && g <= f
    requires IsLowestRun(used, limit, n, f)
    ensures LowestFrom(used, limit, n, g) == f
    decreases f - g
  {
    if g < f {
      LowestFromUnique(used, limit, n, g + 1, f);
    }
  }

  lemma {:induction false} LowestFromNone(used: set<nat>, limit: nat, n: nat, g: nat)
    requires n >= 1 && NoRun(used, limit, n)
    ensures LowestFrom(used, limit, n, g) == 0
    decreases limit - g
  {
    if g + n <= limit {
      LowestFromNone(used, limit, n, g + 1);
    }
  }

  lemma FirstFree(used: set<nat>, limit: nat, f: nat)
    requires forall g :: 0 <= g < f ==> g in used
    ensures f < limit && f !in used ==> Lowest(used, limit, 1) == f
    ensures f >= limit ==> Lowest(used, limit, 1) == 0
  {
    forall g | 0 <= g < f ensures !RunFree(used, g, 1) {
      assert g in used;
    }
    if f < limit && f !in used {
      assert IsLowestRun(used, limit, 1, f);
      LowestFromUnique(used, limit, 1, 0, f);
    } else if f >= limit {
      LowestFromNone(used, limit, 1, 0);
    }
  }

  // ---- The word-by-word scan ----

  /** The scan up to `pos` has seen no run of `n`, and exactly the last `count` frames are free;
      they start at `first`, which is 0 when there are none. */
  ghost predicate Scanned(used: set<nat>, n: nat, pos: nat, first: nat, count: nat) {
    && count <= pos && first == (if count == 0 then 0 else pos - count)
    && RunFree(used, pos - count, count)
    && (count < pos ==> pos - count - 1 in used)
    && (n > 0 ==> count < n && NoRun(used, pos, n))
  }

  /** One free frame more: either the run is complete and is the lowest one, or the scan goes on. */
  lemma ScanFree(used: set<nat>, limit: nat, n: nat, pos: nat, first: nat, count: nat)
    requires 0 in used && Scanned(used, n, pos, first, count) && pos !in used && pos < limit
    ensures var first' := if first == 0 then pos else first;
            if n > 0 && count + 1 == n then first' > 0 && IsLowestRun(used, limit, n, first')
            else Scanned(used, n, pos + 1, first', count + 1)
  {
    var start := pos - count;
    assert start > 0;
    if n > 0 {
      forall g | 0 <= g && g + n <= pos + 1 && (g + n <= pos || g < start) ensures !RunFree(used, g, n) {
        if g + n > pos { assert g <= start - 1 < g + n; }
      }
    }
  }

  /** The state of the scan after looking at frame `pos`. */
  function Seen(taken: bool, pos: nat, first: nat, count: nat): (nat, nat) {
    if taken then (0, 0) else (if first == 0 then pos else first, count + 1)
  }

  lemma ScanBit(used: set<nat>, limit: nat, n: nat, pos: nat, first: nat, count: nat)
    requires 0 in used && Scanned(used, n, pos, first, count) && pos < limit
    ensures var (f, c) := Seen(pos in used, pos, first, count);
            if c != n then Scanned(used, n, pos + 1, f, c)
            else if n == 0 then f == 0
            else f > 0 && IsLowestRun(used, limit, n, f)
  {
    if pos in used {
      ScanUsed(used, n, pos, first, count, 1);
    } else {
      ScanFree(used, limit, n, pos, first, count);
    }
  }

  /** A used frame ends the current run. */
  lemma ScanUsed(used: set<nat>, n: nat, pos: nat, first: nat, count: nat, m: nat)
    requires Scanned(used, n, pos, first, count) && m > 0
    requires forall k :: pos <= k < pos + m ==> k in used
    ensures Scanned(used, n, pos + m, 0, 0)
  {
    if n > 0 {
      forall g | 0 <= g && g + n <= pos + m ensures !RunFree(used, g, n) {
        if g + n > pos { assert g + n - 1 in used; }
      }
    }
  }

  /** The frames `start` to `start + n - 1`. */
  ghost function Range(start: nat, n: nat): (r: set<nat>)
    ensures forall k :: k in r <==> start <= k < start + n
  {
    if n == 0 then {} else Range(start, n - 1) + {start + n - 1}
  }

  lemma {:induction false} RangeSize(start: nat, n: nat)
    ensures |Range(start, n)| == n
  {
    if n > 0 {
      RangeSize(start, n - 1);
    }
  }

  // ---- What an allocation hands out ----

  /** The first multiple of `LARGE` above a free run. */
  function AlignUp(f: nat): (a: nat)
    ensures a % LARGE == 0 && f < a <= f + LARGE
  {
    (f / LARGE + 1) * LARGE
  }

  /** The lowest run of `n` free frames; nothing when there is none. */
  ghost function GrantRun(used: set<nat>, limit: nat, n: nat): set<nat> {
    var f := Lowest(used, limit, n);
    if n == 0 || f == 0 then {} else Range(f, n)
  }

  /** An aligned run of `LARGE` frames cut from the lowest free run of twice the size. */
  ghost function GrantLarge(used: set<nat>, limit: nat): set<nat> {
    var f := Lowest(used, limit, 2 * LARGE);
    if f == 0 then {} else Range(AlignUp(f), LARGE)
  }

  /** A grant consists of free frames below the limit, never frame 0, and it is empty only if there
      is no such run. */
  lemma GrantIsFree(used: set<nat>, limit: nat, n: nat)
    requires 0 in used
    ensures var g := GrantRun(used, limit, n);
            && g !! used && 0 !in g && (forall k :: k in g ==> k < limit)
            && (n > 0 ==> if g == {} then NoRun(used, limit, n) else |g| == n)
  {
    if n > 0 {
      LowestIs(used, limit, n);
      RangeSize(Lowest(used, limit, n), n);
    }
  }

  /** A large grant is, too; it starts at a multiple of `LARGE` and lies inside the free run found. */
  lemma LargeIsFree(used: set<nat>, limit: nat)
    requires 0 in used
    ensures var g, f := GrantLarge(used, limit), Lowest(used, limit, 2 * LARGE);
            && g !! used && 0 !in g && (forall k :: k in g ==> k < limit)
            && if f == 0 then g == {} && NoRun(used, limit, 2 * LARGE)
               else g == Range(AlignUp(f), LARGE) && AlignUp(f) % LARGE == 0 && |g| == LARGE && g <= Range(f, 2 * LARGE)
  {
    LowestIs(used, limit, 2 * LARGE);
    RangeSize(AlignUp(Lowest(used, limit, 2 * LARGE)), LARGE);
  }

  /** The frames an allocation of one page can choose from. */
  ghost function FreeFrames(used: set<nat>, limit: nat): (s: set<nat>)
    ensures forall f :: f in s <==> 0 <= f < limit && f !in used
  {
    set f: nat | f < limit && f !in used
  }

  /** One page is found exactly when some frame is free, and it takes one of them. */
  lemma OnePageIff(used: set<nat>, limit: nat)
    requires 0 in used
    ensures var f := Lowest(used, limit, 1);
            if FreeFrames(used, limit) == {} then f == 0
            else f != 0 && f in FreeFrames(used, limit) && |FreeFrames(used + {f}, limit)| == |FreeFrames(used, limit)| - 1
  {
    var f := Lowest(used, limit, 1);
    LowestIs(used, limit, 1);
    if f == 0 {
      forall g | g in FreeFrames(used, limit) ensures false {
        assert RunFree(used, g, 1);
      }
    } else {
      assert f in FreeFrames(used, limit);
      assert FreeFrames(used + {f}, limit) == FreeFrames(used, limit) - {f};
    }
  }
}
