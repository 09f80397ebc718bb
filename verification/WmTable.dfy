/** The window table: lookups, and the slot moves of raising and creating windows. */
module WmTable {
  import opened WmRender

  predicate Has(s: Slot, id: nat) { s.Live? && s.win.id == id }

  /** `win_by_id`: the first slot with this window, or the table size. */
  function ById(wins: seq<Slot>, id: nat): (i: nat)
    ensures i <= |wins|
    ensures i < |wins| ==> Has(wins[i], id)
    ensures forall j :: 0 <= j < i ==> !Has(wins[j], id)
  {
    ByIdFrom(wins, id, 0)
  }

  function ByIdFrom(wins: seq<Slot>, id: nat, k: nat): (i: nat)
    requires k <= |wins|
    ensures k <= i <= |wins|
    ensures i < |wins| ==> Has(wins[i], id)
    ensures forall j :: k <= j < i ==> !Has(wins[j], id)
    decreases |wins| - k
  {
    if k == |wins| || Has(wins[k], id) then k else ByIdFrom(wins, id, k + 1)
  }

  predicate Hit(s: Slot, x: int, y: int) {
    s.Live? && !s.win.flags.skipInput && InWin(s.win, x, y)
  }

  /** `win_at` on the first `n` slots: the id of the last window that takes input there, or 0. */
  function At(wins: seq<Slot>, n: nat, x: int, y: int): nat
    requires n <= |wins|
  {
    if n == 0 then 0 else if Hit(wins[n - 1], x, y) then wins[n - 1].win.id else At(wins, n - 1, x, y)
  }

  /** The slot takes input at this point. */
  predicate Reaches(s: Slot, x: int, y: int) {
    && s.Live? && !s.win.flags.skipInput
    && s.win.x <= x < s.win.x + s.win.w && s.win.y <= y < s.win.y + s.win.h
  }

  /** Slot `i` is the topmost of the first `n` that takes input at this point. */
  ghost predicate Under(wins: seq<Slot>, n: nat, i: nat, x: int, y: int) {
    i < n <= |wins| && Reaches(wins[i], x, y) && forall j :: i < j < n ==> !Reaches(wins[j], x, y)
  }

  /** The window hit is the topmost one that takes input there. */
  lemma {:induction false} AtIsTopmost(wins: seq<Slot>, n: nat, i: nat, x: int, y: int)
    requires Under(wins, n, i, x, y)
    ensures At(wins, n, x, y) == wins[i].win.id
  {
    if n - 1 > i {
      AtIsTopmost(wins, n - 1, i, x, y);
    }
  }

  /** Nothing is hit where no window takes input. */
  lemma {:induction false} AtIsNothing(wins: seq<Slot>, n: nat, x: int, y: int)
    requires n <= |wins| && forall j :: 0 <= j < n ==> !Reaches(wins[j], x, y)
    ensures At(wins, n, x, y) == 0
  {
    if n > 0 {
      AtIsNothing(wins, n - 1, x, y);
    }
  }

  /** Whatever is hit is the topmost window that takes input there. */
  lemma {:induction false} AtIsLive(wins: seq<Slot>, n: nat, x: int, y: int) returns (i: nat)
    requires n <= |wins| && At(wins, n, x, y) != 0
    ensures Under(wins, n, i, x, y) && wins[i].win.id == At(wins, n, x, y)
  {
    if Hit(wins[n - 1], x, y) {
      return n - 1;
    }
    i := AtIsLive(wins, n - 1, x, y);
  }

  predicate Focusable(w: Win) {
    !w.flags.skipInput && !w.flags.background && !w.flags.foreground
  }

  predicate TakesFocus(s: Slot) { s.Live? && Focusable(s.win) }

  /** `topmost_focusable_window` on the first `n` slots: its index, or the table size. */
  function Topmost(wins: seq<Slot>, n: nat): (i: nat)
    requires n <= |wins|
    ensures i < n || i == |wins|
    ensures i < n ==> TakesFocus(wins[i])
  {
    if n == 0 then |wins| else if TakesFocus(wins[n - 1]) then n - 1 else Topmost(wins, n - 1)
  }

  lemma {:induction false} TopmostIs(wins: seq<Slot>, n: nat)
    requires n <= |wins|
    ensures forall j :: 0 <= j < n && (Topmost(wins, n) == |wins| || Topmost(wins, n) < j) ==> !TakesFocus(wins[j])
  {
    if n > 0 && !TakesFocus(wins[n - 1]) {
      TopmostIs(wins, n - 1);
    }
  }

  // ---- Raising ----

  predicate Stops(s: Slot) { s.Empty? || s.win.flags.foreground }

  /** The first empty or foreground slot from `j` on, or the table size. */
  function Stop(wins: seq<Slot>, j: nat): (k: nat)
    requires j <= |wins|
    ensures j <= k <= |wins|
    ensures k < |wins| ==> Stops(wins[k])
    decreases |wins| - j
  {
    if j == |wins| || Stops(wins[j]) then j else Stop(wins, j + 1)
  }

  lemma {:induction false} StopIsFirst(wins: seq<Slot>, j: nat)
    requires j <= |wins|
    ensures forall m :: j <= m < Stop(wins, j) ==> !Stops(wins[m])
    decreases |wins| - j
  {
    if j < |wins| && !Stops(wins[j]) {
      StopIsFirst(wins, j + 1);
    }
  }

  /** Where slot `i` goes: into the first hole above it, or right below the first foreground
      window above it (by swapping), whichever comes first. */
  function Bubble(wins: seq<Slot>, i: nat, j: nat): (r: seq<Slot>)
    requires i < j < |wins|
    ensures |r| == |wins|
  {
    if wins[j].Empty? then wins[j := wins[i]][i := Empty]
    else wins[j - 1 := wins[i]][i := wins[j - 1]]
  }

  /** The outer loop of `raise_window` from slot `i` on. */
  function RaiseFrom(wins: seq<Slot>, id: nat, i: nat): (r: seq<Slot>)
    requires i <= |wins|
    ensures |r| == |wins|
    decreases |wins| - i
  {
    if i + 1 >= |wins| then wins
    else if Has(wins[i], id) && Stop(wins, i + 1) < |wins| then Bubble(wins, i, Stop(wins, i + 1))
    else RaiseFrom(wins, id, i + 1)
  }

  /** `raise_window` */
  function Raise(wins: seq<Slot>, id: nat): (r: seq<Slot>)
    ensures |r| == |wins|
  {
    var k := ById(wins, id);
    if id == 0 || k == |wins| then wins
    else if wins[k].win.flags.background || wins[k].win.flags.foreground then wins
    else RaiseFrom(wins, id, 0)
  }

  predicate UniqueIds(wins: seq<Slot>) {
    forall i, j :: 0 <= i < j < |wins| && wins[i].Live? && wins[j].Live? ==> wins[i].win.id != wins[j].win.id
  }

  lemma {:induction false} RaiseFromUnique(wins: seq<Slot>, id: nat, i: nat)
    requires UniqueIds(wins) && i <= ById(wins, id) < |wins|
    ensures var k := ById(wins, id);
            RaiseFrom(wins, id, i) == if Stop(wins, k + 1) < |wins| then Bubble(wins, k, Stop(wins, k + 1)) else wins
    decreases |wins| - i
  {
    var k := ById(wins, id);
    if i < k {
      RaiseFromUnique(wins, id, i + 1);
    } else if i + 1 < |wins| && Stop(wins, k + 1) == |wins| {
      RaiseFromMissing(wins, id, i + 1);
    }
  }

  lemma {:induction false} RaiseFromMissing(wins: seq<Slot>, id: nat, i: nat)
    requires i <= |wins| && forall j :: i <= j < |wins| ==> !Has(wins[j], id)
    ensures RaiseFrom(wins, id, i) == wins
    decreases |wins| - i
  {
    if i + 1 < |wins| {
      RaiseFromMissing(wins, id, i + 1);
    }
  }

  lemma BubbleConserves(wins: seq<Slot>, i: nat, j: nat)
    requires i < j < |wins|
    ensures multiset(Bubble(wins, i, j)) == multiset(wins)
  {
  }

  lemma {:induction false} RaiseFromConserves(wins: seq<Slot>, id: nat, i: nat)
    requires i <= |wins|
    ensures multiset(RaiseFrom(wins, id, i)) == multiset(wins)
    ensures forall k :: 0 <= k < |wins| && wins[k].Live? && wins[k].win.flags.foreground && wins[k].win.id != id ==>
              RaiseFrom(wins, id, i)[k] == wins[k]
    decreases |wins| - i
  {
    if i + 1 < |wins| {
      if Has(wins[i], id) && Stop(wins, i + 1) < |wins| {
        StopIsFirst(wins, i + 1);
        BubbleConserves(wins, i, Stop(wins, i + 1));
      } else {
        RaiseFromConserves(wins, id, i + 1);
      }
    }
  }

  /** Raising loses and duplicates no window and never moves a foreground window. */
  lemma RaiseConserves(wins: seq<Slot>, id: nat)
    ensures multiset(Raise(wins, id)) == multiset(wins)
    ensures UniqueIds(wins) ==> forall k :: 0 <= k < |wins| && wins[k].Live? && wins[k].win.flags.foreground ==>
              Raise(wins, id)[k] == wins[k]
  {
    RaiseFromConserves(wins, id, 0);
  }

  lemma {:induction false} UniqueIdsFromMultiset(a: seq<Slot>, b: seq<Slot>)
    requires multiset(a) == multiset(b) && UniqueIds(a)
    ensures UniqueIds(b)
  {
    forall i, j | 0 <= i < j < |b| && b[i].Live? && b[j].Live? ensures b[i].win.id != b[j].win.id {
      if b[i].win.id == b[j].win.id {
        TwoOccurrences(b, i, j);
        assert b[i] in multiset(a) && b[j] in multiset(a);
        var k, m :| 0 <= k < |a| && 0 <= m < |a| && a[k] == b[i] && a[m] == b[j];
        if k != m {
          assert false;
        }
        assert b[i] == b[j];
        OneOccurrence(a, k);
      }
    }
  }

  lemma {:induction false} TwoOccurrences(s: seq<Slot>, i: nat, j: nat)
    requires i < j < |s|
    ensures s[i] == s[j] ==> multiset(s)[s[i]] >= 2
  {
    var x := s[i];
    assert s == s[..i] + [s[i]] + s[i + 1..j] + [s[j]] + s[j + 1..];
  }

  lemma {:induction false} OneOccurrence(s: seq<Slot>, k: nat)
    requires k < |s| && forall m :: 0 <= m < |s| && s[m] == s[k] ==> m == k
    ensures multiset(s)[s[k]] == 1
  {
    assert s == s[..k] + [s[k]] + s[k + 1..];
    assert s[k] !in multiset(s[..k]) && s[k] !in multiset(s[k + 1..]);
  }

  // ---- When raising makes a window topmost ----

  /** A window that is not kept on top. */
  predicate Ordinary(s: Slot) { s.Live? && !s.win.flags.foreground }

  predicate Raisable(wins: seq<Slot>, id: nat) {
    && UniqueIds(wins) && id != 0
    && ById(wins, id) < |wins|
    && !wins[ById(wins, id)].win.flags.background && !wins[ById(wins, id)].win.flags.foreground
  }

  /** The slot a raised window ends up in. */
  function RaisedTo(wins: seq<Slot>, id: nat): (k: nat)
    requires ById(wins, id) < |wins|
  {
    var i := ById(wins, id);
    var j := Stop(wins, i + 1);
    if j == |wins| then i else if wins[j].Empty? then j else j - 1
  }

  lemma RaiseMoves(wins: seq<Slot>, id: nat)
    requires Raisable(wins, id)
    ensures RaisedTo(wins, id) < |wins|
    ensures Raise(wins, id)[RaisedTo(wins, id)] == wins[ById(wins, id)]
    ensures ById(Raise(wins, id), id) == RaisedTo(wins, id)
    ensures RaisedTo(wins, id) >= ById(wins, id)
  {
    RaiseFromUnique(wins, id, 0);
    RaiseConserves(wins, id);
    UniqueIdsFromMultiset(wins, Raise(wins, id));
  }

  /** Nothing ordinary lies above the first hole or foreground window above the raised one; and
      if there is neither, the window is in the last slot. */
  predicate RoomOnTop(wins: seq<Slot>, i: nat)
    requires i < |wins|
  {
    var j := Stop(wins, i + 1);
    if j == |wins| then i + 1 == |wins| else forall k :: j < k < |wins| ==> !Ordinary(wins[k])
  }

  /** Raising puts a window above all ordinary ones exactly when there is room on top. */
  lemma RaiseTopmostIff(wins: seq<Slot>, id: nat)
    requires Raisable(wins, id)
    ensures (forall k :: RaisedTo(wins, id) < k < |wins| ==> !Ordinary(Raise(wins, id)[k]))
            <==> RoomOnTop(wins, ById(wins, id))
  {
    var i := ById(wins, id);
    StopIsFirst(wins, i + 1);
    if Stop(wins, i + 1) == |wins| {
      RaiseFromUnique(wins, id, 0);
      if i + 1 < |wins| {
        assert !Stops(wins[i + 1]);
        assert Ordinary(Raise(wins, id)[i + 1]);
      }
    } else {
      RaiseLeavesAbove(wins, id);
    }
  }

  /** What lies above the stop stays, and the stop holds the raised window or a foreground one. */
  lemma {:induction false} RaiseLeavesAbove(wins: seq<Slot>, id: nat)
    requires Raisable(wins, id) && Stop(wins, ById(wins, id) + 1) < |wins|
    ensures var j, r := Stop(wins, ById(wins, id) + 1), Raise(wins, id);
            && (forall k :: j < k < |wins| ==> r[k] == wins[k])
            && (!Ordinary(r[j]) || RaisedTo(wins, id) == j)
  {
    RaiseFromUnique(wins, id, 0);
  }

  /** A hole between two windows is enough to leave the raised one below the other, whatever lies
      above them. */
  lemma RaiseMayStayBelow(a: Win, b: Win, rest: seq<Slot>)
    requires a.id == 1 && b.id == 2 && forall i :: 0 <= i < |rest| ==> !Has(rest[i], 1)
    requires a.flags == Flags(false, false, false) && b.flags == Flags(false, false, false)
    ensures Raise([Live(a), Empty, Live(b)] + rest, 1) == [Empty, Live(a), Live(b)] + rest
  {
    var wins := [Live(a), Empty, Live(b)] + rest;
    assert ById(wins, 1) == 0 && Stop(wins, 1) == 1;
    assert RaiseFrom(wins, 1, 0) == Bubble(wins, 0, 1);
  }

  // ---- Placing a new window ----

  /** The first empty slot, or the table size. */
  function FreeSlot(wins: seq<Slot>, k: nat): (i: nat)
    requires k <= |wins|
    ensures k <= i <= |wins|
    ensures i < |wins| ==> wins[i].Empty?
    decreases |wins| - k
  {
    if k == |wins| || wins[k].Empty? then k else FreeSlot(wins, k + 1)
  }

  /** The last empty slot below `n` and above `i`; `i` if there is none. */
  function LastFree(wins: seq<Slot>, i: nat, n: nat): (j: nat)
    requires i < n <= |wins|
    ensures i <= j < n
    ensures j > i ==> wins[j].Empty?
    decreases n
  {
    if n == i + 1 then i else if wins[n - 1].Empty? then n - 1 else LastFree(wins, i, n - 1)
  }

  /** A foreground window moves on to the last empty slot above it. */
  function ToTheTop(wins: seq<Slot>, id: nat): (r: seq<Slot>)
    ensures |r| == |wins|
  {
    var i := ById(wins, id);
    if i >= |wins| then wins
    else
      var j := LastFree(wins, i, |wins|);
      if j == i then wins else wins[j := wins[i]][i := Empty]
  }

  /** The table with a new window in it, before it is raised. */
  function Place(wins: seq<Slot>, win: Win): (r: seq<Slot>)
    requires FreeSlot(wins, 0) < |wins|
    ensures |r| == |wins|
  {
    var r := wins[FreeSlot(wins, 0) := Live(win)];
    if win.flags.foreground then ToTheTop(r, win.id) else r
  }

  /** An ordinary window goes into the first empty slot, one that is kept in the foreground into the last. */
  lemma {:induction false} PlaceIs(wins: seq<Slot>, win: Win, k: nat)
    requires k < |wins| && wins[k].Empty? && ById(wins, win.id) == |wins|
    requires if win.flags.foreground then forall j :: k < j < |wins| ==> wins[j].Live? else forall j :: 0 <= j < k ==> wins[j].Live?
    ensures FreeSlot(wins, 0) < |wins| && Place(wins, win) == wins[k := Live(win)]
  {
    FreeSlotIs(wins, 0);
    var f := FreeSlot(wins, 0);
    var r := wins[f := Live(win)];
    assert Has(r[f], win.id) && forall j :: 0 <= j < f ==> !Has(r[j], win.id);
    assert ById(r, win.id) == f;
    if win.flags.foreground {
      var j := LastFree(r, f, |r|);
      LastFreeIs(r, f, |r|);
      assert j > f ==> r[j] == wins[j];
      assert k > f ==> r[k] == wins[k];
      assert j == k;
      assert Place(wins, win) == wins[k := Live(win)];
    } else {
      assert f == k;
    }
  }

  /** No slot in front of it is empty. */
  lemma {:induction false} FreeSlotIs(wins: seq<Slot>, k: nat)
    requires k <= |wins|
    ensures forall j :: k <= j < FreeSlot(wins, k) ==> wins[j].Live?
    decreases |wins| - k
  {
    if k < |wins| && wins[k].Live? {
      FreeSlotIs(wins, k + 1);
    }
  }

  /** No slot behind it is empty. */
  lemma {:induction false} LastFreeIs(wins: seq<Slot>, i: nat, n: nat)
    requires i < n <= |wins|
    ensures forall j :: LastFree(wins, i, n) < j < n ==> wins[j].Live?
  {
    if n > i + 1 && wins[n - 1].Live? {
      LastFreeIs(wins, i, n - 1);
    }
  }

  /** Placing fills one empty slot with the new window and otherwise only rearranges. */
  lemma {:induction false} PlaceConserves(wins: seq<Slot>, win: Win)
    requires FreeSlot(wins, 0) < |wins|
    ensures multiset(Place(wins, win)) == multiset(wins[FreeSlot(wins, 0) := Live(win)])
  {
    var r := wins[FreeSlot(wins, 0) := Live(win)];
    if win.flags.foreground {
      var i := ById(r, win.id);
      if i < |r| && LastFree(r, i, |r|) != i {
        SwapConserves(r, i, LastFree(r, i, |r|));
      }
    }
  }

  lemma SwapConserves(wins: seq<Slot>, i: nat, j: nat)
    requires i < j < |wins| && wins[j].Empty?
    ensures multiset(wins[j := wins[i]][i := Empty]) == multiset(wins)
  {
  }
}
