/** The window server as a state machine: what every message and input event does to the window
    table, the focus, the drag and the events sent, and what holds over every run. */
module WmServerSpec {
  import opened Arithmetic
  import opened Wrappers
  import opened WmRender
  import opened WmTable

  const TITLEBAR := 30
  const MAX_WINS := 32

  datatype Kind = Press | Release | Move | Enter | Exit | Gained | Lost | Key(code: nat, pressed: bool, repr: char)

  /** What the server sends to a client. */
  datatype Event = Event(pid: nat, win: nat, kind: Kind, x: int, y: int)
                 | Reply(pid: nat, req: nat, win: nat, x: int, y: int)

  datatype Server = Server(wins: seq<Slot>, nextId: nat, mx: int, my: int, left: bool,
                           dragging: bool, dragWin: nat, dragDx: int, dragDy: int,
                           hover: nat, focus: nat, sent: seq<Event>, screenW: nat, screenH: nat)

  /** The state before the first message. */
  function Boot(slots: nat, w: nat, h: nat): Server {
    Server(seq(slots, _ => Empty), 1, w / 2, h / 2, false, false, 0, 0, 0, 0, 0, [], w, h)
  }

  /** Messages from clients and events from the input devices.  `mapped` is the memory that
      mapping the client's buffer gives, if it succeeds.  A client may also redraw its buffer at any
      time without telling anybody. */
  datatype Input =
    | CreateMsg(src: nat, req: nat, w: nat, h: nat, flags: Flags, shm: nat, mapped: Option<nat -> Colour>)
    | CloseMsg(src: nat, id: nat)
    | DamageMsg(id: nat, top: int, lft: int, bottom: int, right: int)
    | MouseEvent(x: int, y: int, left: bool)
    | KeyEvent(code: nat, pressed: bool, repr: char)
    | Redraw(id: nat, pixels: nat -> Colour)

  function Send(sv: Server, ev: Event): (r: Server)
    ensures r.nextId == sv.nextId
  {
    if ev.pid == 0 then sv else sv.(sent := sv.sent + [ev])
  }

  /** `update_focus` */
  function UpdateFocus(sv: Server, id: nat): (r: Server)
    ensures r.wins == sv.wins && r.nextId == sv.nextId
  {
    if id == sv.focus then sv
    else
      var o := ById(sv.wins, sv.focus);
      var sv1 := if o < |sv.wins| then Send(sv, Event(sv.wins[o].win.owner, sv.focus, Lost, 0, 0)) else sv;
      var n := ById(sv.wins, id);
      var sv2 := sv1.(focus := id);
      if n < |sv.wins| then Send(sv2, Event(sv.wins[n].win.owner, id, Gained, 0, 0)) else sv2
  }

  // ---- Messages ----

  /** Window ids count up in 32 bits and skip 0. */
  function FreshId(next: nat): (nat, nat) {
    if next == 0 then (1, 2) else (next, if next + 1 == TWO32 then 0 else next + 1)
  }

  /** Windows open on a diagonal. */
  function Cascade(start: nat, step: nat, range: nat, id: nat): nat
    requires range > 0
  {
    start + id * step % TWO32 % range
  }

  function NewWin(id: nat, m: Input): Win
    requires m.CreateMsg?
  {
    var corner := m.flags.background || m.flags.foreground;
    Win(id, m.src, m.flags, m.w, m.h, m.w, m.shm, m.mapped,
        if corner then 0 else Cascade(10, 24, 200, id), if corner then 0 else Cascade(40, 18, 140, id))
  }

  /** The new window in the table, and the answer to its client. */
  function Placed(sv: Server, m: Input): Server
    requires m.CreateMsg? && FreeSlot(sv.wins, 0) < |sv.wins|
  {
    var (id, next) := FreshId(sv.nextId);
    var win := NewWin(id, m);
    Send(sv.(nextId := next, wins := Place(sv.wins, win)), Reply(m.src, m.req, id, win.x, win.y))
  }

  /** Raises a window and gives it the focus if it takes it. */
  function Shown(sv: Server, id: nat): (r: Server)
    ensures r.nextId == sv.nextId
  {
    var sv1 := sv.(wins := Raise(sv.wins, id));
    var k := ById(sv1.wins, id);
    if k < |sv1.wins| && Focusable(sv1.wins[k].win) then UpdateFocus(sv1, id) else sv1
  }

  function Create(sv: Server, m: Input): Server
    requires m.CreateMsg?
  {
    if FreeSlot(sv.wins, 0) == |sv.wins| || m.mapped.None? then Send(sv, Reply(m.src, m.req, 0, 0, 0))
    else Shown(Placed(sv, m), FreshId(sv.nextId).0)
  }

  /** Empties a slot and forgets the window that was in it. */
  function Gone(sv: Server, k: nat, id: nat): (r: Server)
    requires k < |sv.wins|
    ensures r.nextId == sv.nextId
  {
    var sv0 := sv.(wins := sv.wins[k := Empty]);
    var sv1 := if sv0.hover == id then sv0.(hover := 0) else sv0;
    if sv1.dragWin == id then sv1.(dragWin := 0, dragging := false) else sv1
  }

  /** Gives the focus to the topmost window that takes it. */
  function Refocus(sv: Server): (r: Server)
    ensures r.nextId == sv.nextId
  {
    var t := Topmost(sv.wins, |sv.wins|);
    UpdateFocus(sv, if t < |sv.wins| then sv.wins[t].win.id else 0)
  }

  /** Only the owner closes a window; it learns that it lost the focus before the window goes. */
  function Close(sv: Server, src: nat, id: nat): (r: Server)
    ensures r.nextId == sv.nextId
  {
    var k := ById(sv.wins, id);
    if k == |sv.wins| || sv.wins[k].win.owner != src then sv
    else if sv.focus == id then Refocus(Gone(UpdateFocus(sv, 0), k, id))
    else Gone(sv, k, id)
  }

  // ---- Client buffers ----

  /** The table after a client has drawn into its buffer. */
  function Redrawn(sv: Server, id: nat, pixels: nat -> Colour): (r: Server)
    ensures r.nextId == sv.nextId
  {
    var k := ById(sv.wins, id);
    if k == |sv.wins| || sv.wins[k].win.buf.None? then sv
    else sv.(wins := sv.wins[k := Live(sv.wins[k].win.(buf := Some(pixels)))])
  }

  /** The rectangle of the screen a damage message is about; empty if the window is unknown. */
  function DamageRect(sv: Server, id: nat, top: int, lft: int, bottom: int, right: int): Rect {
    var k := ById(sv.wins, id);
    if k == |sv.wins| then Rect(0, 0, 0, 0)
    else Rect(sv.wins[k].win.x + lft, sv.wins[k].win.y + top, right - lft, bottom - top)
  }

  /** The pixels that may be out of date after an input: those a client changes, until a damage
      message about them. */
  ghost function Stale(stale: iset<Point>, sv: Server, i: Input): iset<Point> {
    match i
    case DamageMsg(id, top, lft, bottom, right) =>
      iset p: Point | p in stale && !InRect(DamageRect(sv, id, top, lft, bottom, right), p.0, p.1)
    case Redraw(id, pixels) =>
      iset p: Point | p in stale ||
        Render(sv.wins, sv.mx, sv.my, p.0, p.1) != Render(Redrawn(sv, id, pixels).wins, sv.mx, sv.my, p.0, p.1)
    case _ => stale
  }

  ghost function StaleAfter(stale: iset<Point>, sv: Server, inputs: seq<Input>): iset<Point>
    decreases |inputs|
  {
    if inputs == [] then stale else StaleAfter(Stale(stale, sv, inputs[0]), Step(sv, inputs[0]), inputs[1..])
  }

  // ---- The mouse ----

  function PressOn(sv: Server, under: nat): (r: Server)
    ensures r.nextId == sv.nextId
  {
    var sv1 := Shown(sv, under);
    var k := ById(sv1.wins, under);
    if k == |sv1.wins| then sv1 else Grab(sv1, sv1.wins[k].win)
  }

  /** The pressed window starts to follow the mouse if it was grabbed by the title bar and is not a
      foreground window. */
  function Grabbed(sv: Server, w: Win): (r: Server)
    ensures r.nextId == sv.nextId
  {
    var lx, ly := sv.mx - w.x, sv.my - w.y;
    if !w.flags.foreground && 0 <= ly < TITLEBAR
    then sv.(dragging := true, dragWin := w.id, dragDx := lx, dragDy := ly) else sv
  }

  /** The pressed window also hears about it. */
  function Grab(sv: Server, w: Win): (r: Server)
    ensures r.nextId == sv.nextId
  {
    Send(Grabbed(sv, w), Event(w.owner, w.id, Press, sv.mx - w.x, sv.my - w.y))
  }

  function PressAt(sv: Server): (r: Server)
    ensures r.nextId == sv.nextId
  {
    var under := At(sv.wins, |sv.wins|, sv.mx, sv.my);
    if under == 0 then sv else PressOn(sv, under)
  }

  /** Keeps a window on the screen while it is dragged. */
  function Clamp(v: int, screen: nat, size: nat): int {
    Min(Max(v, 0), Max(screen - size, 0))
  }

  function DragTarget(sv: Server, w: Win): (int, int) {
    (Clamp(sv.mx - sv.dragDx, sv.screenW, w.w), Clamp(sv.my - sv.dragDy, sv.screenH, w.h))
  }

  function Drag(sv: Server): (r: Server)
    ensures r.nextId == sv.nextId
  {
    var k := ById(sv.wins, sv.dragWin);
    if k == |sv.wins| then sv
    else
      var (nx, ny) := DragTarget(sv, sv.wins[k].win);
      sv.(wins := sv.wins[k := Live(sv.wins[k].win.(x := nx, y := ny))])
  }

  function ReleaseAt(sv: Server): (r: Server)
    ensures r.nextId == sv.nextId
  {
    var sv1 := if sv.dragging then sv.(dragging := false, dragWin := 0) else sv;
    var under := At(sv.wins, |sv.wins|, sv.mx, sv.my);
    var k := ById(sv.wins, under);
    if under == 0 || k == |sv.wins| then sv1
    else
      var w := sv.wins[k].win;
      Send(sv1, Event(w.owner, w.id, Release, sv.mx - w.x, sv.my - w.y))
  }

  function Notify(sv: Server, id: nat, kind: Kind): (r: Server)
    ensures r.nextId == sv.nextId
  {
    var k := ById(sv.wins, id);
    if id == 0 || k == |sv.wins| then sv
    else
      var w := sv.wins[k].win;
      if kind == Exit then Send(sv, Event(w.owner, w.id, kind, 0, 0))
      else Send(sv, Event(w.owner, w.id, kind, sv.mx - w.x, sv.my - w.y))
  }

  /** `handle_mouse_event` */
  function Hover(sv: Server): (r: Server)
    ensures r.nextId == sv.nextId
  {
    var under := At(sv.wins, |sv.wins|, sv.mx, sv.my);
    var sv1 := if under != sv.hover then Notify(Notify(sv, sv.hover, Exit), under, Enter).(hover := under) else sv;
    Notify(sv1, under, Move)
  }

  function Pointed(sv: Server, x: int, y: int, left: bool): Server {
    sv.(mx := x, my := y, left := left)
  }

  function Mouse(sv: Server, x: int, y: int, left: bool): (r: Server)
    ensures r.nextId == sv.nextId
  {
    var moved := sv.mx != x || sv.my != y;
    var sv0 := Pointed(sv, x, y, left);
    var sv1 := if !sv.left && left then PressAt(sv0) else sv0;
    var sv2 := if sv1.dragging && sv1.dragWin != 0 && left && moved then Drag(sv1) else sv1;
    var sv3 := if sv.left && !left then ReleaseAt(sv2) else sv2;
    if moved then Hover(sv3) else sv3
  }

  // ---- The keyboard ----

  /** Finds a window for the keyboard when the focused one cannot take it: the slot that gets the
      key (the table size for none) and the state with the focus moved there. */
  function Recover(sv: Server): (Server, nat) {
    var f := ById(sv.wins, sv.focus);
    if f < |sv.wins| && Focusable(sv.wins[f].win) then (sv, f)
    else
      var under := At(sv.wins, |sv.wins|, sv.mx, sv.my);
      var u := ById(sv.wins, under);
      if under != 0 && u < |sv.wins| && Focusable(sv.wins[u].win) then (UpdateFocus(sv, under), u)
      else
        var t := Topmost(sv.wins, |sv.wins|);
        if t < |sv.wins| then (UpdateFocus(sv, sv.wins[t].win.id), t) else (sv, f)
  }

  function Keyboard(sv: Server, kind: Kind): (r: Server)
    ensures r.nextId == sv.nextId
  {
    var (sv1, f) := Recover(sv);
    if f >= |sv1.wins| then sv1
    else Send(sv1, Event(sv1.wins[f].win.owner, sv1.wins[f].win.id, kind, 0, 0))
  }

  function Step(sv: Server, i: Input): Server {
    match i
    case CreateMsg(_, _, _, _, _, _, _) => Create(sv, i)
    case CloseMsg(src, id) => Close(sv, src, id)
    case DamageMsg(_, _, _, _, _) => sv
    case Redraw(id, pixels) => Redrawn(sv, id, pixels)
    case MouseEvent(x, y, left) => Mouse(sv, x, y, left)
    case KeyEvent(code, pressed, repr) => Keyboard(sv, Key(code, pressed, repr))
  }

  function Run(sv: Server, inputs: seq<Input>): Server
    decreases |inputs|
  {
    if inputs == [] then sv else Run(Step(sv, inputs[0]), inputs[1..])
  }
}
