/** What the window server should show: a picture as a function of the window table and the
    cursor, and rectangles that cover every pixel a step can change. */
module WmRender {
  import opened Arithmetic
  import opened Wrappers

  type Colour = nat

  const BACKDROP: Colour := 0xff0b1020
  const WHITE: Colour := 0xffffffff
  const MOUSE_SIZE := 16

  datatype Flags = Flags(background: bool, foreground: bool, skipInput: bool)

  /** A client window.  `buf` is the client's memory as a function of the word offset: what lies
      there is the client's business. */
  datatype Win = Win(id: nat, owner: nat, flags: Flags, w: nat, h: nat, pitch: nat, shm: nat,
                     buf: Option<nat -> Colour>, x: int, y: int)

  datatype Slot = Empty | Live(win: Win)

  /** Word offset of a pixel in a buffer with `pitch` words per row. */
  function Idx(pitch: nat, x: nat, y: nat): nat {
    y * pitch + x
  }

  predicate InWin(w: Win, x: int, y: int) {
    w.x <= x < w.x + w.w && w.y <= y < w.y + w.h
  }

  predicate Paints(s: Slot, x: int, y: int) {
    s.Live? && s.win.buf.Some? && InWin(s.win, x, y)
  }

  function PixelOf(w: Win, x: int, y: int): Colour
    requires w.buf.Some? && InWin(w, x, y)
  {
    w.buf.value(Idx(w.pitch, x - w.x, y - w.y))
  }

  /** The picture of the first `n` slots, later slots on top. */
  function Layers(wins: seq<Slot>, n: nat, x: int, y: int): Colour
    requires n <= |wins|
  {
    if n == 0 then BACKDROP
    else if Paints(wins[n - 1], x, y) then PixelOf(wins[n - 1].win, x, y)
    else Layers(wins, n - 1, x, y)
  }

  /** The arrow: twelve rows, growing from one pixel to ten. */
  predicate InCursor(cx: int, cy: int, x: int, y: int) {
    0 <= y - cy < 12 && 0 <= x - cx < (if y - cy + 1 > 10 then 10 else y - cy + 1)
  }

  /** The full picture: backdrop, windows in slot order, cursor. */
  function Render(wins: seq<Slot>, cx: int, cy: int, x: int, y: int): Colour {
    if InCursor(cx, cy, x, y) then WHITE else Layers(wins, |wins|, x, y)
  }

  // ---- What the picture means ----

  /** A window with a buffer lies around the pixel. */
  predicate Around(s: Slot, x: int, y: int) {
    && s.Live? && s.win.buf.Some?
    && s.win.x <= x < s.win.x + s.win.w && s.win.y <= y < s.win.y + s.win.h
  }

  /** Slot `k` is the last of the first `n` whose window lies around the pixel. */
  ghost predicate OnTop(wins: seq<Slot>, n: nat, k: nat, x: int, y: int) {
    k < n <= |wins| && Around(wins[k], x, y) && forall j :: k < j < n ==> !Around(wins[j], x, y)
  }

  /** The client's word for a pixel: row and column count from the corner of the window. */
  ghost function WordAt(w: Win, x: int, y: int): Colour
    requires Around(Live(w), x, y)
  {
    var row: nat, col: nat := y - w.y, x - w.x;
    w.buf.value(row * w.pitch + col)
  }

  /** A pixel shows the client's word for it in the topmost window around it. */
  lemma {:induction false} LayersIsTopmost(wins: seq<Slot>, n: nat, k: nat, x: int, y: int)
    requires OnTop(wins, n, k, x, y)
    ensures var w := wins[k].win; var row: nat, col: nat := y - w.y, x - w.x;
            Layers(wins, n, x, y) == w.buf.value(row * w.pitch + col)
  {
    if n - 1 > k {
      LayersIsTopmost(wins, n - 1, k, x, y);
    }
  }

  /** A pixel with no window around it shows the backdrop. */
  lemma {:induction false} LayersIsBackdrop(wins: seq<Slot>, n: nat, x: int, y: int)
    requires n <= |wins| && forall j :: 0 <= j < n ==> !Around(wins[j], x, y)
    ensures Layers(wins, n, x, y) == 0xff0b1020
  {
    if n > 0 {
      LayersIsBackdrop(wins, n - 1, x, y);
    }
  }

  /** The colour a pixel should have: white in the arrow, whose rows grow from one pixel to ten and of
      which there are twelve; the client's word in the topmost window; the backdrop elsewhere. */
  ghost predicate Pictured(wins: seq<Slot>, cx: int, cy: int, x: int, y: int, c: Colour) {
    if 0 <= y - cy < 12 && 0 <= x - cx <= y - cy && x - cx < 10 then c == 0xffffffff
    else
      && (forall k: nat :: OnTop(wins, |wins|, k, x, y) ==> c == WordAt(wins[k].win, x, y))
      && ((forall j :: 0 <= j < |wins| ==> !Around(wins[j], x, y)) ==> c == 0xff0b1020)
  }

  /** The picture gives every pixel that colour and no other. */
  lemma RenderIff(wins: seq<Slot>, cx: int, cy: int, x: int, y: int, c: Colour)
    ensures Pictured(wins, cx, cy, x, y, c) <==> c == Render(wins, cx, cy, x, y)
  {
    LayersIff(wins, x, y, c);
  }

  lemma {:induction false} LayersIff(wins: seq<Slot>, x: int, y: int, c: Colour)
    ensures c == Layers(wins, |wins|, x, y) <==>
            && (forall k: nat :: OnTop(wins, |wins|, k, x, y) ==> c == WordAt(wins[k].win, x, y))
            && ((forall j :: 0 <= j < |wins| ==> !Around(wins[j], x, y)) ==> c == 0xff0b1020)
  {
    var k := Last(wins, |wins|, x, y);
    if k < |wins| {
      LayersIsTopmost(wins, |wins|, k, x, y);
      assert forall i: nat :: OnTop(wins, |wins|, i, x, y) ==> i == k;
    } else {
      LayersIsBackdrop(wins, |wins|, x, y);
    }
  }

  /** The topmost window around a pixel, `|wins|` if there is none. */
  ghost function Last(wins: seq<Slot>, n: nat, x: int, y: int): (k: nat)
    requires n <= |wins|
    ensures k < |wins| ==> OnTop(wins, n, k, x, y)
    ensures k >= |wins| ==> forall j :: 0 <= j < n ==> !Around(wins[j], x, y)
  {
    if n == 0 then |wins| else if Around(wins[n - 1], x, y) then n - 1 else Last(wins, n - 1, x, y)
  }

  // ---- Rectangles ----

  datatype Rect = Rect(x: int, y: int, w: int, h: int)

  type Point = (int, int)

  predicate InRect(r: Rect, x: int, y: int) {
    r.x <= x < r.x + r.w && r.y <= y < r.y + r.h
  }

  /** `rect_union`: the bounding box. */
  function Union(a: Rect, b: Rect): (r: Rect)
    ensures forall x, y :: InRect(a, x, y) || InRect(b, x, y) ==> InRect(r, x, y)
  {
    var x0, y0 := Min(a.x, b.x), Min(a.y, b.y);
    Rect(x0, y0, Max(a.x + a.w, b.x + b.w) - x0, Max(a.y + a.h, b.y + b.h) - y0)
  }

  /** It is the smallest rectangle around two non-empty ones. */
  lemma UnionIsSmallest(a: Rect, b: Rect, r: Rect)
    requires a.w > 0 && a.h > 0 && b.w > 0 && b.h > 0
    requires forall x, y :: InRect(a, x, y) || InRect(b, x, y) ==> InRect(r, x, y)
    ensures forall x, y :: InRect(Union(a, b), x, y) ==> InRect(r, x, y)
  {
    assert InRect(a, a.x, a.y) && InRect(a, a.x + a.w - 1, a.y + a.h - 1);
    assert InRect(b, b.x, b.y) && InRect(b, b.x + b.w - 1, b.y + b.h - 1);
  }

  function CursorBox(cx: int, cy: int): Rect { Rect(cx, cy, MOUSE_SIZE, MOUSE_SIZE) }

  function WinBox(w: Win, x: int, y: int): Rect { Rect(x, y, w.w, w.h) }

  /** The rectangle repainted when only the cursor moves. */
  function CursorDirty(cx: int, cy: int, cx': int, cy': int): Rect {
    Union(CursorBox(cx, cy), CursorBox(cx', cy'))
  }

  /** The rectangle repainted when a window is dragged. */
  function DragDirty(w: Win, x': int, y': int, cx: int, cy: int, cx': int, cy': int): Rect {
    Union(Union(WinBox(w, w.x, w.y), WinBox(w, x', y')), CursorDirty(cx, cy, cx', cy'))
  }

  /** Moving the cursor changes nothing outside its dirty rectangle. */
  lemma CursorMoveIsCovered(wins: seq<Slot>, cx: int, cy: int, cx': int, cy': int, x: int, y: int)
    requires !InRect(CursorDirty(cx, cy, cx', cy'), x, y)
    ensures Render(wins, cx, cy, x, y) == Render(wins, cx', cy', x, y)
  {
    assert !InRect(CursorBox(cx, cy), x, y) && !InRect(CursorBox(cx', cy'), x, y);
  }

  lemma {:induction false} LayersAgree(wins: seq<Slot>, wins': seq<Slot>, n: nat, x: int, y: int)
    requires |wins| == |wins'| && n <= |wins|
    requires forall j :: 0 <= j < n && wins[j] != wins'[j] ==> !Paints(wins[j], x, y) && !Paints(wins'[j], x, y)
    ensures Layers(wins, n, x, y) == Layers(wins', n, x, y)
  {
    if n > 0 {
      LayersAgree(wins, wins', n - 1, x, y);
    }
  }

  /** Moving a window and the cursor changes only pixels in the old or the new place of either. */
  lemma DragElsewhere(wins: seq<Slot>, k: nat, x': int, y': int, cx: int, cy: int, cx': int, cy': int, x: int, y: int)
    requires k < |wins| && wins[k].Live?
    requires !InRect(WinBox(wins[k].win, wins[k].win.x, wins[k].win.y), x, y)
    requires !InRect(WinBox(wins[k].win, x', y'), x, y)
    requires !InRect(CursorBox(cx, cy), x, y) && !InRect(CursorBox(cx', cy'), x, y)
    ensures Render(wins, cx, cy, x, y) == Render(wins[k := Live(wins[k].win.(x := x', y := y'))], cx', cy', x, y)
  {
    LayersAgree(wins, wins[k := Live(wins[k].win.(x := x', y := y'))], |wins|, x, y);
  }

  /** Dragging a window changes nothing outside its dirty rectangle, whether or not the new cursor
      is on the screen already. */
  lemma DragIsCovered(wins: seq<Slot>, k: nat, x': int, y': int, cx: int, cy: int, cx': int, cy': int, x: int, y: int)
    requires k < |wins| && wins[k].Live?
    requires !InRect(DragDirty(wins[k].win, x', y', cx, cy, cx', cy'), x, y)
    ensures var wins' := wins[k := Live(wins[k].win.(x := x', y := y'))];
            && Render(wins, cx, cy, x, y) == Render(wins', cx', cy', x, y)
            && Render(wins, cx', cy', x, y) == Render(wins', cx', cy', x, y)
  {
    var w := wins[k].win;
    var a := Union(WinBox(w, w.x, w.y), WinBox(w, x', y'));
    assert !InRect(CursorDirty(cx, cy, cx', cy'), x, y) && !InRect(a, x, y);
    DragElsewhere(wins, k, x', y', cx, cy, cx', cy', x, y);
    DragElsewhere(wins, k, x', y', cx', cy', cx', cy', x, y);
  }

  /** A client that redraws inside a rectangle of its window changes nothing outside it. */
  lemma DamageIsCovered(wins: seq<Slot>, k: nat, buf: nat -> Colour, r: Rect, cx: int, cy: int, x: int, y: int)
    requires k < |wins| && wins[k].Live? && wins[k].win.buf.Some?
    requires forall px, py :: InWin(wins[k].win, px, py) && !InRect(r, px, py) ==>
               PixelOf(wins[k].win, px, py) == PixelOf(wins[k].win.(buf := Some(buf)), px, py)
    requires !InRect(r, x, y)
    ensures Render(wins, cx, cy, x, y) == Render(wins[k := Live(wins[k].win.(buf := Some(buf)))], cx, cy, x, y)
  {
    RepaintedLayers(wins, k, buf, |wins|, x, y);
  }

  lemma {:induction false} RepaintedLayers(wins: seq<Slot>, k: nat, buf: nat -> Colour, n: nat, x: int, y: int)
    requires k < |wins| && n <= |wins| && wins[k].Live? && wins[k].win.buf.Some?
    requires InWin(wins[k].win, x, y) ==>
               PixelOf(wins[k].win, x, y) == PixelOf(wins[k].win.(buf := Some(buf)), x, y)
    ensures Layers(wins, n, x, y) == Layers(wins[k := Live(wins[k].win.(buf := Some(buf)))], n, x, y)
  {
    if n > 0 {
      RepaintedLayers(wins, k, buf, n - 1, x, y);
    }
  }
}
