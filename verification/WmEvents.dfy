/** Who gets which event, and what a report of the mouse does to the window under it. */
module WmEvents {
  import opened Arithmetic
  import opened Wrappers
  import opened WmRender
  import opened WmTable
  import opened WmServerSpec
  import opened WmServerRuns

  /** Slot `i` is the topmost window that takes input under the mouse. */
  ghost predicate UnderMouse(sv: Server, i: nat) {
    Under(sv.wins, |sv.wins|, i, sv.mx, sv.my)
  }

  /** No window takes input under the mouse. */
  ghost predicate NothingUnder(sv: Server) {
    forall j :: 0 <= j < |sv.wins| ==> !Reaches(sv.wins[j], sv.mx, sv.my)
  }

  /** The window under the mouse is found again under its id. */
  lemma HitFinds(sv: Server, i: nat)
    requires TableOk(sv.wins, sv.nextId) && UnderMouse(sv, i)
    ensures At(sv.wins, |sv.wins|, sv.mx, sv.my) == sv.wins[i].win.id != 0
    ensures ById(sv.wins, sv.wins[i].win.id) == i && sv.wins[i].win.owner != 0
  {
    AtIsTopmost(sv.wins, |sv.wins|, i, sv.mx, sv.my);
    WinOfSlot(sv.wins, i);
  }

  // ---- Focus events

  /** A window with this id loses or gains the focus. */
  function FocusEvent(wins: seq<Slot>, id: nat, kind: Kind): seq<Event> {
    match WinOf(wins, id)
    case Some(w) => [Event(w.owner, id, kind, 0, 0)]
    case None => []
  }

  /** The window that had the focus hears that it lost it, and then the new one that it gained it. */
  lemma FocusMoves(sv: Server, id: nat)
    requires TableOk(sv.wins, sv.nextId)
    ensures UpdateFocus(sv, id) ==
            sv.(focus := id,
                sent := if id == sv.focus then sv.sent
                        else sv.sent + FocusEvent(sv.wins, sv.focus, Lost) + FocusEvent(sv.wins, id, Gained))
  {
    if id != sv.focus {
      var o, n := ById(sv.wins, sv.focus), ById(sv.wins, id);
      assert sv.sent + FocusEvent(sv.wins, sv.focus, Lost) == if o < |sv.wins| then sv.sent + [Event(sv.wins[o].win.owner, sv.focus, Lost, 0, 0)] else sv.sent;
    }
  }

  /** What a window that takes the focus, or does not, hears when it is brought up. */
  function FocusTrace(sv: Server, w: Win): seq<Event> {
    if w.flags.skipInput || w.flags.background || w.flags.foreground || w.id == sv.focus then []
    else FocusEvent(sv.wins, sv.focus, Lost) + [Event(w.owner, w.id, Gained, 0, 0)]
  }

  lemma ShownIs(sv: Server, i: nat)
    requires TableOk(sv.wins, sv.nextId) && i < |sv.wins| && sv.wins[i].Live?
    ensures var w := sv.wins[i].win; var r := Shown(sv, w.id);
            && TableOk(r.wins, sv.nextId) && WinOf(r.wins, w.id) == Some(w)
            && r == sv.(wins := Raise(sv.wins, w.id), sent := sv.sent + FocusTrace(sv, w),
                        focus := if Focusable(w) then w.id else sv.focus)
  {
    var w := sv.wins[i].win;
    var sv1 := sv.(wins := Raise(sv.wins, w.id));
    RaiseConserves(sv.wins, w.id);
    TableOkPermuted(sv.wins, sv1.wins, sv.nextId);
    WinOfSlot(sv.wins, i);
    WinOfPermuted(sv.wins, sv1.wins, w.id);
    WinOfPermuted(sv.wins, sv1.wins, sv.focus);
    FocusMoves(sv1, w.id);
    assert sv.sent + FocusEvent(sv.wins, sv.focus, Lost) + [Event(w.owner, w.id, Gained, 0, 0)]
        == sv.sent + (FocusEvent(sv.wins, sv.focus, Lost) + [Event(w.owner, w.id, Gained, 0, 0)]);
  }

  // ---- Press and release

  /** The topmost window under the mouse hears about the press, with coordinates from its corner; it is
      raised and gets the focus if it takes it, and it starts to follow the mouse if it was grabbed in
      its upper 30 rows and is not kept in the foreground. */
  lemma PressGoesToTopmost(sv: Server, i: nat)
    requires Inv(sv) && UnderMouse(sv, i)
    ensures var w := sv.wins[i].win; var r := PressAt(sv); var lx, ly := sv.mx - w.x, sv.my - w.y;
            && r.sent == sv.sent + FocusTrace(sv, w) + [Event(w.owner, w.id, Press, lx, ly)]
            && r.focus == (if w.flags.skipInput || w.flags.background || w.flags.foreground then sv.focus else w.id)
            && r.wins == Raise(sv.wins, w.id) && WinOf(r.wins, w.id) == Some(w)
            && (if !w.flags.foreground && 0 <= ly < 30
                then r.dragging && r.dragWin == w.id && r.dragDx == lx && r.dragDy == ly
                else (r.dragging, r.dragWin, r.dragDx, r.dragDy) == (sv.dragging, sv.dragWin, sv.dragDx, sv.dragDy))
  {
    HitFinds(sv, i);
    ShownIs(sv, i);
  }

  lemma PressOnNothing(sv: Server)
    requires NothingUnder(sv)
    ensures PressAt(sv) == sv
  {
    AtIsNothing(sv.wins, |sv.wins|, sv.mx, sv.my);
  }

  /** The topmost window under the mouse hears about the release, and the drag is over. */
  lemma ReleaseGoesToTopmost(sv: Server, i: nat)
    requires TableOk(sv.wins, sv.nextId) && UnderMouse(sv, i)
    ensures var w := sv.wins[i].win; var r := ReleaseAt(sv);
            && r.sent == sv.sent + [Event(w.owner, w.id, Release, sv.mx - w.x, sv.my - w.y)]
            && !r.dragging && r.wins == sv.wins && r.focus == sv.focus
  {
    HitFinds(sv, i);
  }

  lemma ReleaseOnNothing(sv: Server)
    requires NothingUnder(sv)
    ensures ReleaseAt(sv).sent == sv.sent && !ReleaseAt(sv).dragging
  {
    AtIsNothing(sv.wins, |sv.wins|, sv.mx, sv.my);
  }

  // ---- Hovering

  /** The window the mouse leaves, if it still exists, hears about it. */
  function Left(sv: Server): seq<Event> {
    if sv.hover == 0 then [] else FocusEvent(sv.wins, sv.hover, Exit)
  }

  /** Over a window: the window left hears so, then the one entered, and that one hears about the move
      in any case; the coordinates count from its corner. */
  lemma HoverOverWindow(sv: Server, i: nat)
    requires TableOk(sv.wins, sv.nextId) && UnderMouse(sv, i)
    ensures var w := sv.wins[i].win; var r := Hover(sv); var lx, ly := sv.mx - w.x, sv.my - w.y;
            && r.sent == sv.sent + (if w.id == sv.hover then [] else Left(sv) + [Event(w.owner, w.id, Enter, lx, ly)])
                         + [Event(w.owner, w.id, Move, lx, ly)]
            && r == sv.(hover := w.id, sent := r.sent)
  {
    HitFinds(sv, i);
    NotifyExit(sv);
    var w := sv.wins[i].win;
    var e := [Event(w.owner, w.id, Enter, sv.mx - w.x, sv.my - w.y)];
    assert sv.sent + Left(sv) + e == sv.sent + (Left(sv) + e);
    assert sv.sent + [] == sv.sent;
  }

  lemma NotifyExit(sv: Server)
    requires TableOk(sv.wins, sv.nextId)
    ensures Notify(sv, sv.hover, Exit) == sv.(sent := sv.sent + Left(sv))
  {
    assert sv.sent + [] == sv.sent;
  }

  /** Off all windows: the window left hears so, and nobody else hears anything. */
  lemma HoverOverNothing(sv: Server)
    requires TableOk(sv.wins, sv.nextId) && NothingUnder(sv)
    ensures Hover(sv) == sv.(hover := 0, sent := sv.sent + Left(sv))
  {
    AtIsNothing(sv.wins, |sv.wins|, sv.mx, sv.my);
    NotifyExit(sv);
    assert sv.sent + [] == sv.sent;
  }

  // ---- Dragging

  /** Along one axis: the point where the window was grabbed is under the mouse as long as that keeps the
      window on the screen; otherwise the window stands at the edge of the screen it would cross, at the
      first one if it is larger than the screen. */
  predicate Follows(at: int, mouse: int, grabbed: int, size: nat, screen: nat) {
    if 0 <= mouse - grabbed <= screen - size then mouse - at == grabbed
    else if mouse - grabbed < 0 || size >= screen then at == 0
    else at + size == screen
  }

  /** From `wins` to `wins'` the dragged window followed the mouse, and every other slot stayed as it is. */
  ghost predicate Dragged(sv: Server, wins: seq<Slot>, wins': seq<Slot>) {
    var k := ById(wins, sv.dragWin);
    && |wins'| == |wins| && k < |wins| && wins'[k].Live?
    && (forall j :: 0 <= j < |wins| && j != k ==> wins'[j] == wins[j])
    && var w, w' := wins[k].win, wins'[k].win;
       && w' == w.(x := w'.x, y := w'.y)
       && Follows(w'.x, sv.mx, sv.dragDx, w.w, sv.screenW) && Follows(w'.y, sv.my, sv.dragDy, w.h, sv.screenH)
  }

  /** The dragged window follows the mouse, and everything else stays as it is. */
  lemma DragFollows(sv: Server)
    requires TableOk(sv.wins, sv.nextId) && WinOf(sv.wins, sv.dragWin).Some?
    ensures var r := Drag(sv); r == sv.(wins := r.wins) && Dragged(sv, sv.wins, r.wins)
  {
  }

  // ---- The keyboard

  /** A key goes to the window that has the focus; if none has it, to the topmost window under the mouse if
      that takes the focus, and otherwise to the topmost window of all that does. */
  lemma KeyFinds(sv: Server, kind: Kind, i: nat)
    requires Inv(sv) && kind.Key? && i < |sv.wins| && TakesFocus(sv.wins[i])
    requires || sv.focus == sv.wins[i].win.id
             || (sv.focus == 0 && UnderMouse(sv, i))
             || (sv.focus == 0 && !(exists j: nat :: UnderMouse(sv, j) && TakesFocus(sv.wins[j]))
                 && forall j :: i < j < |sv.wins| ==> !TakesFocus(sv.wins[j]))
    ensures Keyboard(sv, kind).focus == sv.wins[i].win.id
  {
    WinOfSlot(sv.wins, i);
    assert ById(sv.wins, 0) == |sv.wins|;
    if sv.focus == 0 {
      var under := At(sv.wins, |sv.wins|, sv.mx, sv.my);
      if UnderMouse(sv, i) {
        HitFinds(sv, i);
      } else {
        if under != 0 {
          var j := AtIsLive(sv.wins, |sv.wins|, sv.mx, sv.my);
          HitFinds(sv, j);
        }
        TopmostIs(sv.wins, |sv.wins|);
      }
    }
  }

  // ---- Reports

  lemma NotifySends(sv: Server, id: nat, kind: Kind)
    ensures var r := Notify(sv, id, kind); sv.sent <= r.sent && r == sv.(sent := r.sent)
  {
  }

  lemma HoverSends(sv: Server)
    ensures var r := Hover(sv); sv.sent <= r.sent && r == sv.(hover := r.hover, sent := r.sent)
  {
    var under := At(sv.wins, |sv.wins|, sv.mx, sv.my);
    var sv1 := Notify(sv, sv.hover, Exit);
    NotifySends(sv, sv.hover, Exit);
    NotifySends(sv1, under, Enter);
    NotifySends(if under != sv.hover then Notify(sv1, under, Enter).(hover := under) else sv, under, Move);
  }

  lemma DragMoves(sv: Server)
    ensures Drag(sv) == sv.(wins := Drag(sv).wins)
  {
  }

  /** A report of the mouse with the button going down first presses at the new position; moving on and
      hovering only send more events. */
  lemma PressReport(sv: Server, x: int, y: int)
    requires !sv.left
    ensures var p, r := PressAt(Pointed(sv, x, y, true)), Step(sv, MouseEvent(x, y, true));
            p.sent <= r.sent && r == p.(wins := r.wins, hover := r.hover, sent := r.sent)
  {
    var p := PressAt(Pointed(sv, x, y, true));
    var moved := sv.mx != x || sv.my != y;
    var q := if p.dragging && p.dragWin != 0 && moved then Drag(p) else p;
    DragMoves(p);
    HoverSends(q);
    assert Step(sv, MouseEvent(x, y, true)) == if moved then Hover(q) else q;
  }

  /** While the button stays down, every report that moves the mouse moves the dragged window after it,
      and the grabbed point stays the same. */
  lemma DragReport(sv: Server, x: int, y: int)
    requires Inv(sv) && sv.left && sv.dragging && (x != sv.mx || y != sv.my)
    ensures var r := Step(sv, MouseEvent(x, y, true));
            && (r.dragging, r.left, r.dragWin, r.dragDx, r.dragDy) == (true, true, sv.dragWin, sv.dragDx, sv.dragDy)
            && (r.mx, r.my) == (x, y) && Dragged(r, sv.wins, r.wins)
  {
    var p := Pointed(sv, x, y, true);
    DragFollows(p);
    HoverSends(Drag(p));
    assert Step(sv, MouseEvent(x, y, true)) == Hover(Drag(p));
  }

  // ---- Windows come and go

  /** Window ids count up, skip 0, and start again at 1 behind the last word. */
  lemma IdsCountUp(next: nat)
    requires next < TWO32
    ensures var (id, after) := FreshId(next);
            && id == (if next == 0 then 1 else next) && 0 < id < TWO32
            && after == (id + 1) % TWO32
  {
    SmallMod(if next + 1 < TWO32 then next + 1 else 0);
  }

  /** Ordinary windows open on a diagonal, the first seven ever 24 columns and 18 rows from one to the
      next, and always with their corner in the same part of the screen. */
  lemma WindowsOpenOnADiagonal(id: nat, m: Input)
    requires m.CreateMsg? && 0 < id < TWO32
    ensures var w := NewWin(id, m);
            && (m.flags.background || m.flags.foreground ==> w.x == 0 && w.y == 0)
            && (!m.flags.background && !m.flags.foreground ==>
                  && 10 <= w.x < 210 && 40 <= w.y < 180
                  && (id <= 7 ==> w.x == 10 + 24 * id && w.y == 40 + 18 * id))
            && w == Win(id, m.src, m.flags, m.w, m.h, m.w, m.shm, m.mapped, w.x, w.y)
  {
    CascadeIs(10, 24, 200, id);
    CascadeIs(40, 18, 140, id);
  }

  lemma CascadeIs(start: nat, step: nat, range: nat, id: nat)
    requires range > 0
    ensures start <= Cascade(start, step, range, id) < start + range
    ensures id * step < range < TWO32 ==> Cascade(start, step, range, id) == start + id * step
  {
  }

  /** A create message that finds a slot and a buffer is answered with the id and the corner of the new
      window, which is then in the table and has the focus if it takes it; any other is answered with
      zeros. */
  lemma CreateAnswers(sv: Server, m: Input)
    requires Inv(sv) && m.CreateMsg? && m.src != 0 && 0 < sv.nextId < TWO32 - 1
    ensures var r := Create(sv, m); var w := NewWin(sv.nextId, m);
            if m.mapped.Some? && exists j :: 0 <= j < |sv.wins| && sv.wins[j].Empty? then
              && WinOf(r.wins, sv.nextId) == Some(w)
              && sv.sent + [Reply(m.src, m.req, w.id, w.x, w.y)] <= r.sent
              && r.focus == if w.flags.skipInput || w.flags.background || w.flags.foreground then sv.focus else w.id
            else r == sv.(sent := sv.sent + [Reply(m.src, m.req, 0, 0, 0)])
  {
    FreeSlotIff(sv.wins, 0);
    if FreeSlot(sv.wins, 0) < |sv.wins| && m.mapped.Some? {
      PlacedIs(sv, m);
      ShownIs(Placed(sv, m), ById(Placed(sv, m).wins, sv.nextId));
    }
  }

  lemma {:induction false} FreeSlotIff(wins: seq<Slot>, k: nat)
    requires k <= |wins|
    ensures FreeSlot(wins, k) < |wins| <==> exists j :: k <= j < |wins| && wins[j].Empty?
    decreases |wins| - k
  {
    if k < |wins| && wins[k].Live? {
      FreeSlotIff(wins, k + 1);
    }
  }

  lemma PlacedIs(sv: Server, m: Input)
    requires Inv(sv) && m.CreateMsg? && m.src != 0 && 0 < sv.nextId < TWO32 - 1 && FreeSlot(sv.wins, 0) < |sv.wins|
    ensures var r := Placed(sv, m); var w := NewWin(sv.nextId, m);
            && WinOf(r.wins, sv.nextId) == Some(w) && TableOk(r.wins, r.nextId) && r.focus == sv.focus
            && r.sent == sv.sent + [Reply(m.src, m.req, w.id, w.x, w.y)]
  {
    var w, k := NewWin(sv.nextId, m), FreeSlot(sv.wins, 0);
    PlacedInv(sv, m);
    AddedWindow(sv.wins, k, w, w.id);
    AddInv(sv, k, w);
    PlaceConserves(sv.wins, w);
    WinOfPermuted(sv.wins[k := Live(w)], Place(sv.wins, w), w.id);
  }

  /** Its owner closes a window, which is then gone while all others stay; from anybody else a close
      message changes nothing. */
  lemma CloseRemoves(sv: Server, src: nat, id: nat, other: nat)
    requires Inv(sv)
    ensures var r := Close(sv, src, id); var w := WinOf(sv.wins, id);
            if w.Some? && w.value.owner == src then
              && WinOf(r.wins, id) == None && (other != id ==> WinOf(r.wins, other) == WinOf(sv.wins, other))
              && r.focus != id && r.hover != id && (sv.dragWin == id ==> !r.dragging)
            else r == sv
  {
    var k := ById(sv.wins, id);
    if k < |sv.wins| && sv.wins[k].win.owner == src {
      var sv0 := if sv.focus == id then UpdateFocus(sv, 0) else sv;
      FocusSet(sv, 0);
      GoneRemoves(sv0, k, other);
      RefocusFinds(Gone(sv0, k, id));
    }
  }

  lemma GoneRemoves(sv: Server, k: nat, other: nat)
    requires UniqueIds(sv.wins) && k < |sv.wins| && sv.wins[k].Live? && sv.wins[k].win.id != 0
    ensures var id := sv.wins[k].win.id; var r := Gone(sv, k, id);
            && WinOf(r.wins, id) == None && (other != id ==> WinOf(r.wins, other) == WinOf(sv.wins, other))
            && r.focus == sv.focus && r.hover != id && (sv.dragWin == id ==> !r.dragging)
  {
    RemovedWindow(sv.wins, k, other);
    var wins' := sv.wins[k := Empty];
    assert ById(wins', sv.wins[k].win.id) == |wins'|;
  }

  /** The focus goes to a window of the table or to none. */
  lemma RefocusFinds(sv: Server)
    ensures Refocus(sv) == sv.(focus := Refocus(sv).focus, sent := Refocus(sv).sent)
    ensures Refocus(sv).focus == 0 || ById(sv.wins, Refocus(sv).focus) < |sv.wins|
  {
    var t := Topmost(sv.wins, |sv.wins|);
    FocusSet(sv, if t < |sv.wins| then sv.wins[t].win.id else 0);
    if t < |sv.wins| {
      assert Has(sv.wins[t], sv.wins[t].win.id);
    }
  }

  lemma FocusSet(sv: Server, id: nat)
    ensures UpdateFocus(sv, id) == sv.(focus := id, sent := UpdateFocus(sv, id).sent)
  {
  }
}
