/** The window server with its window table, focus and drag variables and its screen.  Every
    step does to the table and the variables what `WmServerSpec` says, and leaves the back
    buffer and the frame buffer equal to the full picture. */
module WmServer {
  import opened Arithmetic
  import opened Wrappers
  import opened WmRender
  import opened WmScreen
  import opened WmTable
  import Spec = WmServerSpec

  class Server {
    const screen: Screen
    const wins: array<Slot>
    var nextId: nat
    var mx: int
    var my: int
    var left: bool
    var dragging: bool
    var dragWin: nat
    var dragDx: int
    var dragDy: int
    var hover: nat
    var focus: nat
    /** Everything sent to clients so far. */
    var sent: seq<Spec.Event>

    ghost predicate Valid()
      reads this
    {
      screen.Valid() && wins.Length == Spec.MAX_WINS && nextId < TWO32
    }

    ghost function View(): Spec.Server
      reads this, wins
    {
      Spec.Server(wins[..], nextId, mx, my, left, dragging, dragWin, dragDx, dragDy, hover, focus, sent,
                  screen.w, screen.h)
    }

    /** What is on the screen is the full picture of the current table and cursor, but for the stale
        pixels. */
    ghost predicate Synced(stale: iset<Point>)
      requires screen.Valid()
      reads this, wins, screen.back, screen.fb
    {
      screen.Synced(wins[..], mx, my, stale)
    }

    /** The start of `main`: empty table, cursor in the middle, one full repaint. */
    constructor (w: nat, h: nat, pitch: nat)
      requires w <= pitch
      ensures Valid() && View() == Spec.Boot(Spec.MAX_WINS, w, h) && Synced(iset{})
      ensures fresh(screen) && fresh(screen.back) && fresh(screen.fb) && fresh(wins)
    {
      screen := new Screen(w, h, pitch);
      wins := new Slot[Spec.MAX_WINS](_ => Empty);
      nextId, mx, my, left := 1, w / 2, h / 2, false;
      dragging, dragWin, dragDx, dragDy := false, 0, 0, 0;
      hover, focus, sent := 0, 0, [];
      new;
      screen.CompositeFull(wins[..], mx, my);
    }

    /** `win_by_id`; the table size stands for NULL. */
    method WinById(id: nat) returns (k: nat)
      ensures k == ById(wins[..], id)
    {
      k := 0;
      while k < wins.Length
        invariant 0 <= k <= wins.Length
        invariant ById(wins[..], id) == ByIdFrom(wins[..], id, k)
      {
        if wins[k].Live? && wins[k].win.id == id {
          return;
        }
        k := k + 1;
      }
    }

    /** `win_at` */
    method WinAt(x: int, y: int) returns (best: nat)
      ensures best == At(wins[..], wins.Length, x, y)
    {
      best := 0;
      for i := 0 to wins.Length
        invariant best == At(wins[..], i, x, y)
      {
        if wins[i].Empty? || wins[i].win.flags.skipInput {
          continue;
        }
        var w := wins[i].win;
        if x >= w.x && x < w.x + w.w && y >= w.y && y < w.y + w.h {
          best := w.id;
        }
      }
    }

    /** `topmost_focusable_window`; the table size stands for NULL. */
    method TopmostFocusable() returns (best: nat)
      ensures best == Topmost(wins[..], wins.Length)
    {
      best := wins.Length;
      for i := 0 to wins.Length
        invariant best == Topmost(wins[..], i)
      {
        if wins[i].Live? && Focusable(wins[i].win) {
          best := i;
        }
      }
    }

    /** The inner loop of `raise_window` for the window in slot `i`. */
    method BubbleUp(i: nat) returns (moved: bool)
      requires i < wins.Length && wins[i].Live?
      modifies wins
      ensures var j := Stop(old(wins[..]), i + 1);
              && moved == (j < wins.Length)
              && wins[..] == if moved then Bubble(old(wins[..]), i, j) else old(wins[..])
    {
      ghost var ws := wins[..];
      var j := i + 1;
      while j < wins.Length
        invariant i < j <= wins.Length && wins[..] == ws && Stop(ws, i + 1) == Stop(ws, j)
      {
        if wins[j].Empty? {
          wins[j] := wins[i];
          wins[i] := Empty;
          return true;
        }
        if wins[j].win.flags.foreground {
          var tmp := wins[j - 1];
          wins[j - 1] := wins[i];
          wins[i] := tmp;
          return true;
        }
        j := j + 1;
      }
      moved := false;
    }

    /** `raise_window` */
    method RaiseWindow(id: nat)
      modifies wins
      ensures wins[..] == Raise(old(wins[..]), id)
    {
      if id == 0 {
        return;
      }
      var k := WinById(id);
      if k == wins.Length {
        return;
      }
      if wins[k].win.flags.background || wins[k].win.flags.foreground {
        return;
      }
      ghost var ws := wins[..];
      var i := 0;
      while i + 1 < wins.Length
        invariant 0 <= i <= wins.Length && wins[..] == ws && RaiseFrom(ws, id, 0) == RaiseFrom(ws, id, i)
      {
        if wins[i].Live? && wins[i].win.id == id {
          var moved := BubbleUp(i);
          if moved {
            return;
          }
        }
        i := i + 1;
      }
    }

    /** `send_event_to`: nothing goes to pid 0. */
    method Send(ev: Spec.Event)
      modifies this`sent
      ensures View() == Spec.Send(old(View()), ev)
    {
      if ev.pid == 0 {
        return;
      }
      sent := sent + [ev];
    }

    /** `update_focus` */
    method UpdateFocus(id: nat)
      modifies this`sent, this`focus
      ensures View() == Spec.UpdateFocus(old(View()), id)
    {
      if id == focus {
        return;
      }
      var o := WinById(focus);
      if o < wins.Length {
        Send(Spec.Event.Event(wins[o].win.owner, wins[o].win.id, Spec.Lost, 0, 0));
      }
      focus := id;
      var n := WinById(focus);
      if n < wins.Length {
        Send(Spec.Event.Event(wins[n].win.owner, wins[n].win.id, Spec.Gained, 0, 0));
      }
    }

    // ---- Messages ----

    /** The first empty slot, or the table size. */
    method FindSlot() returns (k: nat)
      ensures k == FreeSlot(wins[..], 0)
    {
      k := 0;
      while k < wins.Length
        invariant 0 <= k <= wins.Length && FreeSlot(wins[..], 0) == FreeSlot(wins[..], k)
      {
        if wins[k].Empty? {
          return;
        }
        k := k + 1;
      }
    }

    /** Moves a foreground window to the last empty slot above its own. */
    method MoveToTop(id: nat)
      modifies wins
      ensures wins[..] == ToTheTop(old(wins[..]), id)
    {
      ghost var ws := wins[..];
      var i := WinById(id);
      if i >= wins.Length {
        return;
      }
      var j := wins.Length - 1;
      while j > i
        invariant i <= j < wins.Length && wins[..] == ws
        invariant LastFree(ws, i, |ws|) == LastFree(ws, i, j + 1)
      {
        if wins[j].Empty? {
          wins[j] := wins[i];
          wins[i] := Empty;
          return;
        }
        j := j - 1;
      }
    }

    /** Puts a new window into the first empty slot; foreground windows move on. */
    method PlaceWindow(k: nat, win: Win)
      requires k < wins.Length && k == FreeSlot(wins[..], 0)
      modifies wins
      ensures wins[..] == Place(old(wins[..]), win)
    {
      wins[k] := Live(win);
      assert wins[..] == old(wins[..])[k := Live(win)];
      if win.flags.foreground {
        MoveToTop(win.id);
      }
    }

    /** Raises a window and gives it the focus if it takes it. */
    method Show(id: nat)
      modifies this`sent, this`focus, wins
      ensures View() == Spec.Shown(old(View()), id)
    {
      RaiseWindow(id);
      var k := WinById(id);
      if k < wins.Length && Focusable(wins[k].win) {
        UpdateFocus(id);
      }
    }

    /** The table part of handling a create message that finds a slot and a buffer. */
    method Admit(m: Spec.Input, k: nat) returns (id: nat)
      requires Valid() && m.CreateMsg? && k < wins.Length && k == FreeSlot(wins[..], 0)
      modifies this`nextId, this`sent, wins
      ensures Valid() && View() == Spec.Placed(old(View()), m) && id == Spec.FreshId(old(nextId)).0
    {
      id := nextId;
      nextId := if nextId + 1 == TWO32 then 0 else nextId + 1;
      if id == 0 {
        id := nextId;
        nextId := nextId + 1;
      }
      var win := Spec.NewWin(id, m);
      PlaceWindow(k, win);
      Send(Spec.Reply(m.src, m.req, id, win.x, win.y));
    }

    /** A create message. */
    method CreateWindow(m: Spec.Input, ghost stale: iset<Point>)
      requires Valid() && Synced(stale) && m.CreateMsg?
      modifies this, wins, screen.back, screen.fb
      ensures Valid() && View() == Spec.Create(old(View()), m) && Synced(stale)
    {
      var k := FindSlot();
      if k == wins.Length || m.mapped.None? {
        Send(Spec.Reply(m.src, m.req, 0, 0, 0));
        return;
      }
      var id := Admit(m, k);
      Show(id);
      screen.CompositeFull(wins[..], mx, my);
      screen.FreshIsSynced(wins[..], mx, my, stale);
    }

    method Vacate(k: nat, id: nat)
      requires k < wins.Length
      modifies this`hover, this`dragWin, this`dragging, wins
      ensures View() == Spec.Gone(old(View()), k, id)
    {
      wins[k] := Empty;
      assert wins[..] == old(wins[..])[k := Empty];
      if hover == id {
        hover := 0;
      }
      if dragWin == id {
        dragWin := 0;
        dragging := false;
      }
    }

    method Refocus()
      modifies this`sent, this`focus
      ensures View() == Spec.Refocus(old(View()))
    {
      var t := TopmostFocusable();
      UpdateFocus(if t < wins.Length then wins[t].win.id else 0);
    }

    /** A close message. */
    method CloseWindow(src: nat, id: nat, ghost stale: iset<Point>)
      requires Valid() && Synced(stale)
      modifies this, wins, screen.back, screen.fb
      ensures Valid() && View() == Spec.Close(old(View()), src, id) && Synced(stale)
    {
      var k := WinById(id);
      if k == wins.Length || wins[k].win.owner != src {
        return;
      }
      var wasFocused := focus == id;
      if wasFocused {
        UpdateFocus(0);
      }
      Vacate(k, id);
      if wasFocused {
        Refocus();
      }
      screen.CompositeFull(wins[..], mx, my);
      screen.FreshIsSynced(wins[..], mx, my, stale);
    }

    /** A damage message: repaints the rectangle, relative to the window, without its right and
        bottom edge; nothing is stale in it afterwards. */
    method HandleDamage(id: nat, top: int, lft: int, bottom: int, right: int, ghost stale: iset<Point>)
      requires Valid() && Synced(stale)
      modifies screen.back, screen.fb
      ensures Synced(Spec.Stale(stale, old(View()), Spec.DamageMsg(id, top, lft, bottom, right)))
      ensures var r := Spec.DamageRect(View(), id, top, lft, bottom, right);
              forall x, y :: screen.OnScreen(x, y) && !InRect(r, x, y) ==>
                && screen.Get(screen.back, x, y) == old(screen.Get(screen.back, x, y))
                && screen.Get(screen.fb, x, y) == old(screen.Get(screen.fb, x, y))
    {
      var k := WinById(id);
      if k < wins.Length {
        var w := wins[k].win;
        var x0, y0 := w.x + lft, w.y + top;
        var x1, y1 := w.x + right, w.y + bottom;
        screen.CompositeRect(wins[..], mx, my, Rect(x0, y0, x1 - x0, y1 - y0));
      }
    }

    /** A client draws into its buffer: the table sees the new pixels, the screen does not yet. */
    method RedrawBuffer(id: nat, pixels: nat -> Colour, ghost stale: iset<Point>)
      requires Valid() && Synced(stale)
      modifies wins
      ensures Valid() && View() == Spec.Redrawn(old(View()), id, pixels)
      ensures Synced(Spec.Stale(stale, old(View()), Spec.Redraw(id, pixels)))
    {
      var k := WinById(id);
      if k < wins.Length && wins[k].win.buf.Some? {
        wins[k] := Live(wins[k].win.(buf := Some(pixels)));
        assert wins[..] == old(wins[..])[k := wins[k]];
      }
    }

    // ---- The mouse ----

    /** The left button goes down. */
    method PressUnder()
      modifies this`sent, this`focus, this`dragging, this`dragWin, this`dragDx, this`dragDy, wins
      ensures View() == Spec.PressAt(old(View()))
    {
      var under := WinAt(mx, my);
      if under == 0 {
        return;
      }
      Show(under);
      var k := WinById(under);
      if k < wins.Length {
        Grab(wins[k].win);
      }
    }

    method Grab(w: Win)
      modifies this`sent, this`dragging, this`dragWin, this`dragDx, this`dragDy
      ensures View() == Spec.Grab(old(View()), w)
    {
      var lx, ly := mx - w.x, my - w.y;
      if !w.flags.foreground && ly >= 0 && ly < Spec.TITLEBAR {
        dragging := true;
        dragWin := w.id;
        dragDx := lx;
        dragDy := ly;
      }
      Send(Spec.Event.Event(w.owner, w.id, Spec.Press, lx, ly));
    }

    /** Where the dragged window goes. */
    method DragTarget(w: Win) returns (nx: int, ny: int)
      ensures (nx, ny) == Spec.DragTarget(View(), w)
    {
      nx, ny := mx - dragDx, my - dragDy;
      if nx < 0 {
        nx := 0;
      }
      if ny < 0 {
        ny := 0;
      }
      var maxx, maxy := screen.w - w.w, screen.h - w.h;
      if maxx < 0 {
        maxx := 0;
      }
      if maxy < 0 {
        maxy := 0;
      }
      if nx > maxx {
        nx := maxx;
      }
      if ny > maxy {
        ny := maxy;
      }
    }

    /** The dragged window follows the mouse.  The screen shows the cursor at (`sx`, `sy`), which is
        the old place or already the new one. */
    method DragWindow(oldx: int, oldy: int, ghost stale: iset<Point>, ghost sx: int, ghost sy: int) returns (redrawn: bool)
      requires Valid() && screen.Synced(wins[..], sx, sy, stale)
      requires (sx == oldx && sy == oldy) || (sx == mx && sy == my)
      modifies wins, screen.back, screen.fb
      ensures View() == Spec.Drag(old(View()))
      ensures if redrawn then Synced(stale) else screen.Synced(wins[..], sx, sy, stale)
    {
      redrawn := false;
      var k := WinById(dragWin);
      if k == wins.Length {
        return;
      }
      var w := wins[k].win;
      var nx, ny := DragTarget(w);
      if nx != w.x || ny != w.y {
        MoveWindow(k, nx, ny, oldx, oldy, stale, sx, sy);
        redrawn := true;
      } else {
        assert old(wins[..]) == old(wins[..])[k := Live(w.(x := nx, y := ny))];
      }
    }

    /** Moves a window and repaints its old and new place and both cursors. */
    method MoveWindow(k: nat, nx: int, ny: int, oldx: int, oldy: int, ghost stale: iset<Point>, ghost sx: int, ghost sy: int)
      requires Valid() && k < wins.Length && wins[k].Live? && screen.Synced(wins[..], sx, sy, stale)
      requires (sx == oldx && sy == oldy) || (sx == mx && sy == my)
      modifies wins, screen.back, screen.fb
      ensures wins[..] == old(wins[..])[k := Live(old(wins[k]).win.(x := nx, y := ny))] && Synced(stale)
    {
      ghost var ws := wins[..];
      var w := wins[k].win;
      var dirty := DragDirty(w, nx, ny, oldx, oldy, mx, my);
      wins[k] := Live(w.(x := nx, y := ny));
      assert wins[..] == ws[k := Live(w.(x := nx, y := ny))];
      forall x, y | screen.OnScreen(x, y) && !InRect(dirty, x, y)
        ensures Render(ws, sx, sy, x, y) == Render(wins[..], mx, my, x, y)
      {
        DragIsCovered(ws, k, nx, ny, oldx, oldy, mx, my, x, y);
      }
      screen.Refresh(wins[..], mx, my, dirty, stale, ws, sx, sy);
    }

    /** The left button goes up. */
    method ReleaseUnder()
      modifies this`sent, this`dragging, this`dragWin
      ensures View() == Spec.ReleaseAt(old(View()))
    {
      if dragging {
        dragging := false;
        dragWin := 0;
      }
      var under := WinAt(mx, my);
      if under == 0 {
        return;
      }
      var k := WinById(under);
      if k < wins.Length {
        var w := wins[k].win;
        Send(Spec.Event.Event(w.owner, w.id, Spec.Release, mx - w.x, my - w.y));
      }
    }

    method Notify(id: nat, kind: Spec.Kind)
      modifies this`sent
      ensures View() == Spec.Notify(old(View()), id, kind)
    {
      if id == 0 {
        return;
      }
      var k := WinById(id);
      if k == wins.Length {
        return;
      }
      var w := wins[k].win;
      if kind == Spec.Exit {
        Send(Spec.Event.Event(w.owner, w.id, kind, 0, 0));
      } else {
        Send(Spec.Event.Event(w.owner, w.id, kind, mx - w.x, my - w.y));
      }
    }

    /** `handle_mouse_event` */
    method HandleHover()
      modifies this`sent, this`hover
      ensures View() == Spec.Hover(old(View()))
    {
      var under := WinAt(mx, my);
      if under != hover {
        Notify(hover, Spec.Exit);
        Notify(under, Spec.Enter);
        hover := under;
      }
      Notify(under, Spec.Move);
    }

    /** Takes over the reported position and button; the screen still shows the old cursor. */
    method Report(x: int, y: int, l: bool, ghost stale: iset<Point>)
      requires Valid() && Synced(stale)
      modifies this`mx, this`my, this`left
      ensures Valid() && View() == Spec.Pointed(old(View()), x, y, l) && screen.Synced(wins[..], old(mx), old(my), stale)
    {
      mx, my, left := x, y, l;
    }

    /** Repaints the cursor's old and new place. */
    method MoveCursor(oldx: int, oldy: int, ghost stale: iset<Point>)
      requires Valid() && screen.Synced(wins[..], oldx, oldy, stale)
      modifies screen.back, screen.fb
      ensures Synced(stale)
    {
      var dirty := CursorDirty(oldx, oldy, mx, my);
      forall x, y | screen.OnScreen(x, y) && !InRect(dirty, x, y)
        ensures Render(wins[..], oldx, oldy, x, y) == Render(wins[..], mx, my, x, y)
      {
        CursorMoveIsCovered(wins[..], oldx, oldy, mx, my, x, y);
      }
      screen.Refresh(wins[..], mx, my, dirty, stale, wins[..], oldx, oldy);
    }

    /** A mouse report. */
    method MouseInput(x: int, y: int, l: bool, ghost stale: iset<Point>)
      requires Valid() && Synced(stale)
      modifies this, wins, screen.back, screen.fb
      ensures Valid() && View() == Spec.Mouse(old(View()), x, y, l) && Synced(stale)
    {
      var oldx, oldy, oldLeft := mx, my, left;
      Report(x, y, l, stale);
      var moved := oldx != mx || oldy != my;
      var redrawn := PressPhase(!oldLeft && left, stale, oldx, oldy);
      if dragging && dragWin != 0 && left && moved {
        var r := DragWindow(oldx, oldy, stale, if redrawn then mx else oldx, if redrawn then my else oldy);
        redrawn := redrawn || r;
      }
      redrawn := ReleasePhase(oldLeft && !left, redrawn, stale, oldx, oldy);
      HoverPhase(moved, redrawn, oldx, oldy, stale);
    }

    /** The screen shows the cursor where it is, or where it was before the report. */
    ghost predicate Shown(redrawn: bool, oldx: int, oldy: int, stale: iset<Point>)
      requires screen.Valid()
      reads this, wins, screen.back, screen.fb
    {
      screen.Synced(wins[..], if redrawn then mx else oldx, if redrawn then my else oldy, stale)
    }

    /** The button went down, or not. */
    method PressPhase(pressed: bool, ghost stale: iset<Point>, ghost oldx: int, ghost oldy: int) returns (redrawn: bool)
      requires Valid() && Shown(false, oldx, oldy, stale)
      modifies this`sent, this`focus, this`dragging, this`dragWin, this`dragDx, this`dragDy, wins, screen.back, screen.fb
      ensures View() == if pressed then Spec.PressAt(old(View())) else old(View())
      ensures Shown(redrawn, oldx, oldy, stale)
    {
      redrawn := pressed;
      if pressed {
        PressUnder();
        screen.CompositeFull(wins[..], mx, my);
        screen.FreshIsSynced(wins[..], mx, my, stale);
      }
    }

    /** The button went up, or not. */
    method ReleasePhase(released: bool, redrawn: bool, ghost stale: iset<Point>, ghost oldx: int, ghost oldy: int)
      returns (redrawn': bool)
      requires Valid() && Shown(redrawn, oldx, oldy, stale)
      modifies this`sent, this`dragging, this`dragWin, screen.back, screen.fb
      ensures View() == if released then Spec.ReleaseAt(old(View())) else old(View())
      ensures Shown(redrawn', oldx, oldy, stale)
    {
      redrawn' := redrawn || released;
      if released {
        ReleaseUnder();
        screen.CompositeFull(wins[..], mx, my);
        screen.FreshIsSynced(wins[..], mx, my, stale);
      }
    }

    /** The pointer moved, or not: events for the window under it, and the cursor unless everything was
        repainted anyway. */
    method HoverPhase(moved: bool, redrawn: bool, oldx: int, oldy: int, ghost stale: iset<Point>)
      requires Valid() && Shown(redrawn, oldx, oldy, stale) && (moved || (oldx == mx && oldy == my))
      modifies this`sent, this`hover, screen.back, screen.fb
      ensures View() == (if moved then Spec.Hover(old(View())) else old(View())) && Synced(stale)
    {
      if moved {
        HandleHover();
        if !redrawn {
          MoveCursor(oldx, oldy, stale);
        }
      }
    }

    // ---- The keyboard ----

    /** The slot that gets the next key, after moving the focus if need be. */
    method RecoverFocus() returns (f: nat)
      modifies this`sent, this`focus
      ensures (View(), f) == Spec.Recover(old(View()))
    {
      f := WinById(focus);
      if f < wins.Length && Focusable(wins[f].win) {
        return;
      }
      var under := WinAt(mx, my);
      var u := WinById(under);
      if under != 0 && u < wins.Length && Focusable(wins[u].win) {
        UpdateFocus(under);
        f := u;
      } else {
        var t := TopmostFocusable();
        if t < wins.Length {
          UpdateFocus(wins[t].win.id);
          f := t;
        }
      }
    }

    /** A key event. */
    method KeyInput(kind: Spec.Kind, ghost stale: iset<Point>)
      requires Valid() && Synced(stale)
      modifies this`sent, this`focus
      ensures Valid() && View() == Spec.Keyboard(old(View()), kind) && Synced(stale)
    {
      var f := RecoverFocus();
      if f < wins.Length {
        Send(Spec.Event.Event(wins[f].win.owner, wins[f].win.id, kind, 0, 0));
      }
    }

    // ---- The event loop ----

    method Handle(i: Spec.Input, ghost stale: iset<Point>)
      requires Valid() && Synced(stale)
      modifies this, wins, screen.back, screen.fb
      ensures Valid() && View() == Spec.Step(old(View()), i) && Synced(Spec.Stale(stale, old(View()), i))
    {
      match i
      case CreateMsg(_, _, _, _, _, _, _) => CreateWindow(i, stale);
      case CloseMsg(src, id) => CloseWindow(src, id, stale);
      case MouseEvent(x, y, l) => MouseInput(x, y, l, stale);
      case DamageMsg(id, top, lft, bottom, right) => HandleDamage(id, top, lft, bottom, right, stale);
      case Redraw(id, pixels) => RedrawBuffer(id, pixels, stale);
      case KeyEvent(code, pressed, repr) => KeyInput(Spec.Key(code, pressed, repr), stale);
    }

    /** The main loop over any sequence of messages, events and client redraws: the server ends in the
        state of the specification, and after every step (in particular the last) the frame buffer holds
        the colour of the arrow, of the topmost window or of the backdrop in every pixel that no client
        has changed since the last damage message about it. */
    method Serve(inputs: seq<Spec.Input>, ghost stale: iset<Point>)
      requires Valid() && Synced(stale)
      modifies this, wins, screen.back, screen.fb
      ensures Valid() && View() == Spec.Run(old(View()), inputs)
      ensures Synced(Spec.StaleAfter(stale, old(View()), inputs))
      ensures forall x: nat, y: nat ::
                x < screen.w && y < screen.h && (x, y) !in Spec.StaleAfter(stale, old(View()), inputs) ==>
                screen.Displays(screen.fb, wins[..], mx, my, x, y)
    {
      ServeAll(inputs, stale);
      screen.SyncedIsDisplayed(wins[..], mx, my, Spec.StaleAfter(stale, old(View()), inputs));
    }

    /** The loop itself. */
    method ServeAll(inputs: seq<Spec.Input>, ghost stale: iset<Point>)
      requires Valid() && Synced(stale)
      modifies this, wins, screen.back, screen.fb
      ensures Valid() && View() == Spec.Run(old(View()), inputs)
      ensures Synced(Spec.StaleAfter(stale, old(View()), inputs))
    {
      ghost var sv, now := View(), stale;
      for n := 0 to |inputs|
        invariant Valid() && Synced(now) && Spec.Run(View(), inputs[n..]) == Spec.Run(sv, inputs)
        invariant Spec.StaleAfter(now, View(), inputs[n..]) == Spec.StaleAfter(stale, sv, inputs)
      {
        assert inputs[n..][1..] == inputs[n + 1..];
        ghost var before := now;
        now := Spec.Stale(now, View(), inputs[n]);
        Handle(inputs[n], before);
      }
    }
  }
}
