/** Focus, drag and keyboard safety of the window server over every run in which the window
    ids do not wrap around. */
module WmServerRuns {
  import opened Arithmetic
  import opened Wrappers
  import opened WmRender
  import opened WmTable
  import opened WmServerSpec

  // ---- Windows by id, whatever slot they are in ----

  function WinOf(wins: seq<Slot>, id: nat): Option<Win> {
    var k := ById(wins, id);
    if k < |wins| then Some(wins[k].win) else None
  }

  /** Ids are unique, not 0 and below the next id, and every window has an owner. */
  predicate TableOk(wins: seq<Slot>, next: nat) {
    && UniqueIds(wins)
    && forall i :: 0 <= i < |wins| && wins[i].Live? ==> 0 < wins[i].win.id < next && wins[i].win.owner != 0
  }

  lemma WinOfSlot(wins: seq<Slot>, i: nat)
    requires UniqueIds(wins) && i < |wins| && wins[i].Live?
    ensures ById(wins, wins[i].win.id) == i
  {
  }

  lemma FoundInPermuted(a: seq<Slot>, b: seq<Slot>, id: nat)
    requires multiset(a) == multiset(b) && UniqueIds(b) && ById(a, id) < |a|
    ensures WinOf(b, id) == WinOf(a, id)
  {
    var i := ById(a, id);
    assert a[i] in multiset(b);
    var k :| 0 <= k < |b| && b[k] == a[i];
    WinOfSlot(b, k);
  }

  /** Rearranging slots changes no lookup. */
  lemma WinOfPermuted(a: seq<Slot>, b: seq<Slot>, id: nat)
    requires multiset(a) == multiset(b) && UniqueIds(a)
    ensures WinOf(a, id) == WinOf(b, id)
  {
    UniqueIdsFromMultiset(a, b);
    if ById(a, id) < |a| { FoundInPermuted(a, b, id); }
    if ById(b, id) < |b| { FoundInPermuted(b, a, id); }
  }

  lemma TableOkPermuted(a: seq<Slot>, b: seq<Slot>, next: nat)
    requires multiset(a) == multiset(b) && TableOk(a, next)
    ensures TableOk(b, next)
  {
    UniqueIdsFromMultiset(a, b);
    forall i | 0 <= i < |b| && b[i].Live? ensures 0 < b[i].win.id < next && b[i].win.owner != 0 {
      assert b[i] in multiset(a);
    }
  }

  // ---- The focus events sent to a window ----

  predicate IsFocusEvent(ev: Event, id: nat, kind: Kind) {
    ev.Event? && ev.win == id && ev.kind == kind
  }

  /** The last focus event of a window says that it has the focus. */
  predicate Holds(sent: seq<Event>, id: nat) {
    if sent == [] then false
    else
      var last := sent[|sent| - 1];
      if IsFocusEvent(last, id, Gained) then true
      else if IsFocusEvent(last, id, Lost) then false
      else Holds(sent[..|sent| - 1], id)
  }

  /** Gained and lost events of a window take turns, starting with gained. */
  predicate Alternates(sent: seq<Event>, id: nat) {
    if sent == [] then true
    else
      var front, last := sent[..|sent| - 1], sent[|sent| - 1];
      && Alternates(front, id)
      && (IsFocusEvent(last, id, Gained) ==> !Holds(front, id))
      && (IsFocusEvent(last, id, Lost) ==> Holds(front, id))
  }

  /** The window that has the focus according to the events sent so far (0 for none); `None` when
      a window gains the focus while another one has it, or loses it without having it. */
  function Holder(sent: seq<Event>): Option<nat> {
    if sent == [] then Some(0)
    else
      var c, last := Holder(sent[..|sent| - 1]), sent[|sent| - 1];
      if c.None? || last.Reply? then c
      else if last.kind == Gained then if c.value == 0 && last.win != 0 then Some(last.win) else None
      else if last.kind == Lost then if c.value == last.win && last.win != 0 then Some(0) else None
      else c
  }

  /** A trace with a holder is a trace where every window's events take turns, and the holder is
      the one window whose gained event is unmatched. */
  lemma {:induction false} HolderIs(sent: seq<Event>, id: nat)
    requires Holder(sent).Some?
    ensures Alternates(sent, id)
    ensures Holds(sent, id) <==> id == Holder(sent).value && id != 0
  {
    if sent != [] {
      HolderIs(sent[..|sent| - 1], id);
    }
  }

  lemma {:induction false} Sent(sent: seq<Event>, ev: Event)
    ensures Holder(sent + [ev]) ==
            var c := Holder(sent);
            if c.None? || ev.Reply? then c
            else if ev.kind == Gained then if c.value == 0 && ev.win != 0 then Some(ev.win) else None
            else if ev.kind == Lost then if c.value == ev.win && ev.win != 0 then Some(0) else None
            else c
  {
    assert (sent + [ev])[..|sent|] == sent;
  }

  // ---- The invariant ----

  predicate FocusOk(wins: seq<Slot>, focus: nat) {
    focus == 0 || (WinOf(wins, focus).Some? && Focusable(WinOf(wins, focus).value))
  }

  predicate DragOk(sv: Server) {
    sv.dragging ==>
      sv.left && sv.dragWin != 0 && WinOf(sv.wins, sv.dragWin).Some?
      && !WinOf(sv.wins, sv.dragWin).value.flags.foreground
  }

  predicate Inv(sv: Server) {
    TableOk(sv.wins, sv.nextId) && FocusOk(sv.wins, sv.focus) && DragOk(sv) && Holder(sv.sent) == Some(sv.focus)
  }

  predicate Plain(ev: Event) {
    ev.Reply? || (ev.kind != Gained && ev.kind != Lost)
  }

  lemma SendPlain(sv: Server, ev: Event)
    requires Inv(sv) && Plain(ev)
    ensures Inv(Send(sv, ev))
  {
    Sent(sv.sent, ev);
  }

  lemma UpdateFocusInv(sv: Server, id: nat)
    requires Inv(sv) && FocusOk(sv.wins, id)
    ensures Inv(UpdateFocus(sv, id)) && UpdateFocus(sv, id).focus == id
  {
    if id != sv.focus {
      var o, k := ById(sv.wins, sv.focus), ById(sv.wins, id);
      var s1 := sv.sent;
      if sv.focus != 0 {
        var ev := Event(sv.wins[o].win.owner, sv.focus, Lost, 0, 0);
        Sent(s1, ev);
        s1 := s1 + [ev];
      }
      if id != 0 {
        Sent(s1, Event(sv.wins[k].win.owner, id, Gained, 0, 0));
      }
    }
  }

  // ---- Steps ----

  /** Rearranging the table keeps the invariant. */
  lemma PermuteInv(sv: Server, wins: seq<Slot>)
    requires Inv(sv) && multiset(wins) == multiset(sv.wins)
    ensures Inv(sv.(wins := wins))
  {
    TableOkPermuted(sv.wins, wins, sv.nextId);
    WinOfPermuted(sv.wins, wins, sv.focus);
    WinOfPermuted(sv.wins, wins, sv.dragWin);
  }

  lemma RaiseInv(sv: Server, id: nat)
    requires Inv(sv)
    ensures Inv(sv.(wins := Raise(sv.wins, id)))
  {
    RaiseConserves(sv.wins, id);
    PermuteInv(sv, Raise(sv.wins, id));
  }

  /** A new window in a free slot changes no other lookup. */
  lemma AddedWindow(wins: seq<Slot>, k: nat, win: Win, id: nat)
    requires k < |wins| && wins[k].Empty? && ById(wins, win.id) == |wins|
    ensures WinOf(wins[k := Live(win)], id) == if id == win.id then Some(win) else WinOf(wins, id)
  {
    var r := wins[k := Live(win)];
    assert forall j :: 0 <= j < |wins| && j != k ==> r[j] == wins[j];
    assert Has(r[k], win.id);
    var i := ById(wins, id);
    if id == win.id {
      assert forall j :: 0 <= j < k ==> !Has(r[j], id);
    } else if i < |wins| {
      assert Has(r[i], id);
    }
  }

  lemma AddInv(sv: Server, k: nat, win: Win)
    requires Inv(sv) && k < |sv.wins| && sv.wins[k].Empty? && win.id == sv.nextId > 0 && win.owner != 0
    ensures Inv(sv.(wins := sv.wins[k := Live(win)], nextId := sv.nextId + 1))
  {
    AddedWindow(sv.wins, k, win, sv.focus);
    AddedWindow(sv.wins, k, win, sv.dragWin);
  }

  lemma PlaceInv(sv: Server, win: Win)
    requires Inv(sv) && FreeSlot(sv.wins, 0) < |sv.wins| && win.id == sv.nextId > 0 && win.owner != 0
    ensures Inv(sv.(wins := Place(sv.wins, win), nextId := sv.nextId + 1))
  {
    AddInv(sv, FreeSlot(sv.wins, 0), win);
    PlaceConserves(sv.wins, win);
    PermuteInv(sv.(wins := sv.wins[FreeSlot(sv.wins, 0) := Live(win)], nextId := sv.nextId + 1), Place(sv.wins, win));
  }

  lemma PlacedInv(sv: Server, m: Input)
    requires Inv(sv) && m.CreateMsg? && m.src != 0 && 0 < sv.nextId < TWO32 - 1 && FreeSlot(sv.wins, 0) < |sv.wins|
    ensures Inv(Placed(sv, m)) && Placed(sv, m).nextId == sv.nextId + 1
  {
    var win := NewWin(sv.nextId, m);
    PlaceInv(sv, win);
    SendPlain(sv.(nextId := sv.nextId + 1, wins := Place(sv.wins, win)), Reply(m.src, m.req, sv.nextId, win.x, win.y));
  }

  lemma ShownInv(sv: Server, id: nat)
    requires Inv(sv)
    ensures Inv(Shown(sv, id))
  {
    RaiseInv(sv, id);
    var sv1 := sv.(wins := Raise(sv.wins, id));
    var k := ById(sv1.wins, id);
    if k < |sv1.wins| && Focusable(sv1.wins[k].win) {
      UpdateFocusInv(sv1, id);
    }
  }

  lemma CreateInv(sv: Server, m: Input)
    requires Inv(sv) && m.CreateMsg? && m.src != 0 && 0 < sv.nextId < TWO32 - 1
    ensures Inv(Create(sv, m)) && sv.nextId <= Create(sv, m).nextId <= sv.nextId + 1
  {
    if FreeSlot(sv.wins, 0) == |sv.wins| || m.mapped.None? {
      SendPlain(sv, Reply(m.src, m.req, 0, 0, 0));
    } else {
      PlacedInv(sv, m);
      ShownInv(Placed(sv, m), sv.nextId);
    }
  }

  /** Removing a window changes no other lookup. */
  lemma RemovedWindow(wins: seq<Slot>, k: nat, id: nat)
    requires UniqueIds(wins) && k < |wins| && wins[k].Live?
    ensures UniqueIds(wins[k := Empty])
    ensures id != wins[k].win.id ==> WinOf(wins[k := Empty], id) == WinOf(wins, id)
  {
    var r := wins[k := Empty];
    assert forall j :: 0 <= j < |wins| && j != k ==> r[j] == wins[j];
    var i := ById(wins, id);
    if id != wins[k].win.id && i < |wins| {
      assert Has(r[i], id);
    }
  }

  lemma GoneInv(sv: Server, k: nat)
    requires Inv(sv) && k < |sv.wins| && sv.wins[k].Live? && sv.focus != sv.wins[k].win.id
    ensures Inv(Gone(sv, k, sv.wins[k].win.id))
  {
    RemovedWindow(sv.wins, k, sv.focus);
    RemovedWindow(sv.wins, k, sv.dragWin);
  }

  lemma RefocusInv(sv: Server)
    requires Inv(sv)
    ensures Inv(Refocus(sv))
  {
    var t := Topmost(sv.wins, |sv.wins|);
    if t < |sv.wins| {
      WinOfSlot(sv.wins, t);
      UpdateFocusInv(sv, sv.wins[t].win.id);
    } else {
      UpdateFocusInv(sv, 0);
    }
  }

  lemma GoneRefocusInv(sv: Server, k: nat)
    requires Inv(sv) && k < |sv.wins| && sv.wins[k].Live? && sv.focus != sv.wins[k].win.id
    ensures Inv(Refocus(Gone(sv, k, sv.wins[k].win.id)))
  {
    GoneInv(sv, k);
    RefocusInv(Gone(sv, k, sv.wins[k].win.id));
  }

  lemma CloseInv(sv: Server, src: nat, id: nat)
    requires Inv(sv)
    ensures Inv(Close(sv, src, id))
  {
    var k := ById(sv.wins, id);
    if k < |sv.wins| && sv.wins[k].win.owner == src {
      if sv.focus == id {
        UpdateFocusInv(sv, 0);
        GoneRefocusInv(UpdateFocus(sv, 0), k);
      } else {
        GoneInv(sv, k);
      }
    }
  }

  // ---- The mouse ----

  lemma GrabInv(sv: Server, k: nat)
    requires Inv(sv) && sv.left && k < |sv.wins| && sv.wins[k].Live?
    ensures Inv(Grab(sv, sv.wins[k].win))
  {
    var w := sv.wins[k].win;
    GrabbedInv(sv, k);
    SendPlain(Grabbed(sv, w), Event(w.owner, w.id, Press, sv.mx - w.x, sv.my - w.y));
  }

  lemma GrabbedInv(sv: Server, k: nat)
    requires Inv(sv) && sv.left && k < |sv.wins| && sv.wins[k].Live?
    ensures Inv(Grabbed(sv, sv.wins[k].win))
  {
    WinOfSlot(sv.wins, k);
  }

  lemma ShownKeepsButton(sv: Server, id: nat)
    ensures Shown(sv, id).left == sv.left
  {
  }

  lemma PressOnInv(sv: Server, under: nat)
    requires Inv(sv) && sv.left
    ensures Inv(PressOn(sv, under))
  {
    ShownInv(sv, under);
    ShownKeepsButton(sv, under);
    var sv1 := Shown(sv, under);
    var k := ById(sv1.wins, under);
    if k < |sv1.wins| {
      GrabInv(sv1, k);
    }
  }

  /** Moving a window changes nothing but its position. */
  lemma MovedWindow(wins: seq<Slot>, k: nat, x: int, y: int, id: nat)
    requires k < |wins| && wins[k].Live?
    ensures var r := wins[k := Live(wins[k].win.(x := x, y := y))];
            && (WinOf(r, id).Some? <==> WinOf(wins, id).Some?)
            && (WinOf(r, id).Some? ==>
                  WinOf(r, id).value.flags == WinOf(wins, id).value.flags
                  && WinOf(r, id).value.owner == WinOf(wins, id).value.owner)
  {
    var r := wins[k := Live(wins[k].win.(x := x, y := y))];
    assert forall j :: 0 <= j < |wins| ==> (Has(r[j], id) <==> Has(wins[j], id));
    assert ById(r, id) == ById(wins, id) by {
      var i, j := ById(r, id), ById(wins, id);
      assert !(i < j) && !(j < i);
    }
  }

  lemma DragInv(sv: Server)
    requires Inv(sv)
    ensures Inv(Drag(sv))
  {
    var k := ById(sv.wins, sv.dragWin);
    if k < |sv.wins| {
      var (nx, ny) := DragTarget(sv, sv.wins[k].win);
      MovedWindow(sv.wins, k, nx, ny, sv.focus);
      MovedWindow(sv.wins, k, nx, ny, sv.dragWin);
    }
  }

  /** The invariant with the drag condition left open: between the mouse report and the end of
      its handling the button may be up while a drag is still on. */
  predicate InvButDrag(sv: Server) {
    Inv(sv.(dragging := false))
  }

  lemma ReleaseInv(sv: Server)
    requires InvButDrag(sv)
    ensures Inv(ReleaseAt(sv))
  {
    var sv1 := if sv.dragging then sv.(dragging := false, dragWin := 0) else sv;
    assert Inv(sv1);
    var under := At(sv.wins, |sv.wins|, sv.mx, sv.my);
    var k := ById(sv.wins, under);
    if under != 0 && k < |sv.wins| {
      var w := sv.wins[k].win;
      SendPlain(sv1, Event(w.owner, w.id, Release, sv.mx - w.x, sv.my - w.y));
    }
  }

  lemma NotifyInv(sv: Server, id: nat, kind: Kind)
    requires Inv(sv) && kind != Gained && kind != Lost
    ensures Inv(Notify(sv, id, kind))
  {
    var k := ById(sv.wins, id);
    if id != 0 && k < |sv.wins| {
      var w := sv.wins[k].win;
      SendPlain(sv, Event(w.owner, w.id, kind, 0, 0));
      SendPlain(sv, Event(w.owner, w.id, kind, sv.mx - w.x, sv.my - w.y));
    }
  }

  lemma HoverInv(sv: Server)
    requires Inv(sv)
    ensures Inv(Hover(sv))
  {
    var under := At(sv.wins, |sv.wins|, sv.mx, sv.my);
    var sv1 := sv;
    if under != sv.hover {
      NotifyInv(sv, sv.hover, Exit);
      NotifyInv(Notify(sv, sv.hover, Exit), under, Enter);
      sv1 := Notify(Notify(sv, sv.hover, Exit), under, Enter).(hover := under);
      assert Inv(sv1);
    }
    NotifyInv(sv1, under, Move);
  }

  lemma MouseInv(sv: Server, x: int, y: int, left: bool)
    requires Inv(sv)
    ensures Inv(Mouse(sv, x, y, left))
  {
    var moved := sv.mx != x || sv.my != y;
    var sv0 := Pointed(sv, x, y, left);
    if !sv.left && left {
      var under := At(sv0.wins, |sv0.wins|, x, y);
      if under != 0 { PressOnInv(sv0, under); }
    }
    var sv1 := if !sv.left && left then PressAt(sv0) else sv0;
    var sv2 := if sv1.dragging && sv1.dragWin != 0 && left && moved then Drag(sv1) else sv1;
    if left {
      DragInv(sv1);
    } else if sv.left {
      ReleaseInv(sv2);
    }
    var sv3 := if sv.left && !left then ReleaseAt(sv2) else sv2;
    HoverInv(sv3);
  }

  // ---- The keyboard ----

  lemma RecoverInv(sv: Server)
    requires Inv(sv)
    ensures var (sv1, f) := Recover(sv);
            && Inv(sv1) && sv1.wins == sv.wins && sv1.nextId == sv.nextId
            && (f < |sv.wins| ==> TakesFocus(sv.wins[f]) && sv1.focus == sv.wins[f].win.id)
            && (f >= |sv.wins| ==> forall j :: 0 <= j < |sv.wins| ==> !TakesFocus(sv.wins[j]))
  {
    var f := ById(sv.wins, sv.focus);
    if !(f < |sv.wins| && Focusable(sv.wins[f].win)) {
      var under := At(sv.wins, |sv.wins|, sv.mx, sv.my);
      var u := ById(sv.wins, under);
      if under != 0 && u < |sv.wins| && Focusable(sv.wins[u].win) {
        UpdateFocusInv(sv, under);
      } else {
        var t := Topmost(sv.wins, |sv.wins|);
        TopmostIs(sv.wins, |sv.wins|);
        if t < |sv.wins| {
          WinOfSlot(sv.wins, t);
          UpdateFocusInv(sv, sv.wins[t].win.id);
        }
      }
    }
  }

  /** A key goes to the focused window, which takes focus, and some window gets it whenever a
      window that takes focus exists. */
  lemma KeyboardDelivers(sv: Server, kind: Kind)
    requires Inv(sv) && kind.Key?
    ensures var r := Keyboard(sv, kind);
            && Inv(r) && r.nextId == sv.nextId
            && ((exists j :: 0 <= j < |sv.wins| && TakesFocus(sv.wins[j])) ==>
                  && r.focus != 0 && FocusOk(r.wins, r.focus)
                  && r.sent != [] && r.sent[|r.sent| - 1] == Event(WinOf(r.wins, r.focus).value.owner, r.focus, kind, 0, 0))
            && ((forall j :: 0 <= j < |sv.wins| ==> !TakesFocus(sv.wins[j])) ==> r.sent == sv.sent)
  {
    RecoverInv(sv);
    var (sv1, f) := Recover(sv);
    if f < |sv.wins| {
      WinOfSlot(sv.wins, f);
      SendPlain(sv1, Event(sv1.wins[f].win.owner, sv1.wins[f].win.id, kind, 0, 0));
    }
  }

  // ---- Every run ----

  predicate InputOk(sv: Server, i: Input) {
    i.CreateMsg? ==> i.src != 0 && sv.nextId < TWO32 - 1
  }

  /** New pixels change nothing but the pixels. */
  lemma RedrawInv(sv: Server, id: nat, pixels: nat -> Colour)
    requires Inv(sv)
    ensures Inv(Redrawn(sv, id, pixels))
  {
    var k := ById(sv.wins, id);
    if k < |sv.wins| && sv.wins[k].win.buf.Some? {
      RedrawnWindow(sv.wins, k, pixels, sv.focus);
      RedrawnWindow(sv.wins, k, pixels, sv.dragWin);
    }
  }

  lemma RedrawnWindow(wins: seq<Slot>, k: nat, pixels: nat -> Colour, id: nat)
    requires k < |wins| && wins[k].Live?
    ensures var r := wins[k := Live(wins[k].win.(buf := Some(pixels)))];
            && (UniqueIds(wins) ==> UniqueIds(r))
            && ById(r, id) == ById(wins, id)
  {
    var r := wins[k := Live(wins[k].win.(buf := Some(pixels)))];
    assert forall j :: 0 <= j < |wins| ==> (Has(r[j], id) <==> Has(wins[j], id));
    assert ById(r, id) <= ById(wins, id) <= ById(r, id);
  }

  lemma StepInv(sv: Server, i: Input)
    requires Inv(sv) && InputOk(sv, i) && sv.nextId > 0
    ensures Inv(Step(sv, i)) && sv.nextId <= Step(sv, i).nextId <= sv.nextId + Creates([i])
  {
    match i
    case CreateMsg(_, _, _, _, _, _, _) => CreateInv(sv, i);
    case CloseMsg(src, id) => CloseInv(sv, src, id);
    case DamageMsg(_, _, _, _, _) =>
    case Redraw(id, pixels) => RedrawInv(sv, id, pixels);
    case MouseEvent(x, y, left) => MouseInv(sv, x, y, left);
    case KeyEvent(code, pressed, repr) => KeyboardDelivers(sv, Key(code, pressed, repr));
  }

  lemma BootInv(slots: nat, w: nat, h: nat)
    ensures Inv(Boot(slots, w, h))
  {
  }

  /** At the start there are no windows and no events, and the cursor is in the middle of the screen. */
  lemma BootIs(slots: nat, w: nat, h: nat)
    ensures var sv := Boot(slots, w, h);
            && |sv.wins| == slots && (forall i :: 0 <= i < slots ==> sv.wins[i].Empty?) && sv.sent == []
            && 2 * sv.mx <= w <= 2 * sv.mx + 1 && 2 * sv.my <= h <= 2 * sv.my + 1
            && !sv.left && !sv.dragging && sv.hover == 0 && sv.focus == 0 && sv.nextId == 1
  {
  }

  /** The create messages of a run. */
  function Creates(inputs: seq<Input>): nat {
    if inputs == [] then 0 else (if inputs[0].CreateMsg? then 1 else 0) + Creates(inputs[1..])
  }

  /** Over every run with fewer create messages than there are window ids: the focus is on no
      window or on a live one that takes it, gained and lost events of every window take turns and
      the focused window is exactly the one whose gained is unmatched, and a drag only goes on
      while the button is down and its window, not a foreground one, is there. */
  lemma {:induction false} EveryRunSafe(sv: Server, inputs: seq<Input>)
    requires Inv(sv) && 0 < sv.nextId && sv.nextId + Creates(inputs) < TWO32
    requires forall i :: 0 <= i < |inputs| && inputs[i].CreateMsg? ==> inputs[i].src != 0
    ensures Inv(Run(sv, inputs))
    decreases |inputs|
  {
    if inputs != [] {
      StepInv(sv, inputs[0]);
      EveryRunSafe(Step(sv, inputs[0]), inputs[1..]);
    }
  }

  lemma {:induction false} CreatesConcat(a: seq<Input>, b: seq<Input>)
    ensures Creates(a + b) == Creates(a) + Creates(b)
  {
    if a == [] {
      assert a + b == b;
    } else {
      assert (a + b)[1..] == a[1..] + b;
      CreatesConcat(a[1..], b);
    }
  }

  /** Every create message counts once, and nothing else does. */
  lemma {:induction false} CreatesIs(inputs: seq<Input>, i: Input)
    ensures Creates([]) == 0 && Creates(inputs + [i]) == Creates(inputs) + if i.CreateMsg? then 1 else 0
  {
    CreatesConcat(inputs, [i]);
    assert [i][1..] == [];
  }

  // ---- What clients draw ----

  /** As long as no client draws, nothing is ever out of date. */
  lemma {:induction false} NothingStale(sv: Server, inputs: seq<Input>)
    requires forall i :: 0 <= i < |inputs| ==> !inputs[i].Redraw?
    ensures StaleAfter(iset{}, sv, inputs) == iset{}
    decreases |inputs|
  {
    if inputs != [] {
      assert Stale(iset{}, sv, inputs[0]) == iset{};
      NothingStale(Step(sv, inputs[0]), inputs[1..]);
    }
  }

  /** The word in this row and column of a buffer with so many words per row stays the same. */
  predicate SameWord(buf: nat -> Colour, pixels: nat -> Colour, pitch: nat, row: nat, col: nat) {
    buf(row * pitch + col) == pixels(row * pitch + col)
  }

  /** A client that draws inside a rectangle of its window, given by rows and columns of its buffer without
      the last ones, and then reports it leaves nothing out of date. */
  lemma RedrawThenDamage(sv: Server, id: nat, pixels: nat -> Colour, top: int, lft: int, bottom: int, right: int)
    requires var k := ById(sv.wins, id);
             k < |sv.wins| && sv.wins[k].win.buf.Some? &&
             forall row: nat, col: nat ::
               row < sv.wins[k].win.h && col < sv.wins[k].win.w && !(top <= row < bottom && lft <= col < right) ==>
               SameWord(sv.wins[k].win.buf.value, pixels, sv.wins[k].win.pitch, row, col)
    ensures Stale(Stale(iset{}, sv, Redraw(id, pixels)), Redrawn(sv, id, pixels), DamageMsg(id, top, lft, bottom, right))
            == iset{}
  {
    var k := ById(sv.wins, id);
    var r := DamageRect(sv, id, top, lft, bottom, right);
    var w := sv.wins[k].win;
    RedrawnWindow(sv.wins, k, pixels, id);
    forall x, y | InWin(w, x, y) && !InRect(r, x, y) ensures PixelOf(w, x, y) == PixelOf(w.(buf := Some(pixels)), x, y) {
      assert SameWord(w.buf.value, pixels, w.pitch, y - w.y, x - w.x);
    }
    forall p: Point | !InRect(r, p.0, p.1)
      ensures Render(sv.wins, sv.mx, sv.my, p.0, p.1) == Render(Redrawn(sv, id, pixels).wins, sv.mx, sv.my, p.0, p.1)
    {
      DamageIsCovered(sv.wins, k, pixels, r, sv.mx, sv.my, p.0, p.1);
    }
  }
}
