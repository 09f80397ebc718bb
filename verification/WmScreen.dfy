/** The back buffer and the frame buffer of the window server, and the two ways of repainting
    them: everything, or one dirty rectangle. */
module WmScreen {
  import opened Arithmetic
  import opened WmRender

  lemma IdxBound(pitch: nat, h: nat, x: nat, y: nat)
    requires x < pitch && y < h
    ensures Idx(pitch, x, y) < pitch * h
  {
    assert y * pitch + pitch <= h * pitch by {
      assert (h - y - 1) * pitch >= 0;
    }
  }

  lemma IdxApart(pitch: nat, x: nat, y: nat, x': nat, y': nat)
    requires x < pitch && x' < pitch && Idx(pitch, x, y) == Idx(pitch, x', y')
    ensures x == x' && y == y'
  {
    assert (y' - y) * pitch == x - x';
    MulBounds(y' - y, pitch);
  }

  /** The word of the client's buffer that is copied to a pixel of the screen. */
  function Fetch(win: Win, x: int, y: int): Colour
    requires win.buf.Some?
  {
    if x >= win.x && y >= win.y then win.buf.value(Idx(win.pitch, x - win.x, y - win.y)) else 0
  }

  class Screen {
    const w: nat
    const h: nat
    const pitch: nat
    const back: array<Colour>
    const fb: array<Colour>

    ghost predicate Valid() {
      w <= pitch && back.Length >= pitch * h && fb.Length >= pitch * h && back != fb
    }

    constructor (w: nat, h: nat, pitch: nat)
      requires w <= pitch
      ensures Valid() && this.w == w && this.h == h && this.pitch == pitch
      ensures fresh(back) && fresh(fb)
    {
      this.w, this.h, this.pitch := w, h, pitch;
      back := new Colour[pitch * h];
      fb := new Colour[pitch * h];
    }

    predicate OnScreen(x: int, y: int) {
      0 <= x < w && 0 <= y < h
    }

    /** The pixel (x, y) of a buffer. */
    function Get(a: array<Colour>, x: int, y: int): Colour
      requires w <= pitch && a.Length >= pitch * h && OnScreen(x, y)
      reads a
    {
      IdxBound(pitch, h, x, y);
      a[Idx(pitch, x, y)]
    }

    /** Pixels outside the row part are as they were. */
    method PaintRow(a: array<Colour>, y: nat, x0: nat, x1: nat, f: nat -> Colour)
      requires w <= pitch && a.Length >= pitch * h && y < h && x0 <= x1 <= w
      modifies a
      ensures forall px, py :: OnScreen(px, py) ==>
                Get(a, px, py) == if py == y && x0 <= px < x1 then f(px) else old(Get(a, px, py))
    {
      for x := x0 to x1
        invariant forall px, py :: OnScreen(px, py) ==>
                    Get(a, px, py) == if py == y && x0 <= px < x then f(px) else old(Get(a, px, py))
      {
        IdxBound(pitch, h, x, y);
        label L:
        a[Idx(pitch, x, y)] := f(x);
        forall px, py | OnScreen(px, py) && (px != x || py != y) ensures Get(a, px, py) == old@L(Get(a, px, py)) {
          if Idx(pitch, px, py) == Idx(pitch, x, y) { IdxApart(pitch, px, py, x, y); }
        }
      }
    }

    /** Paints the pixels with x0 <= x < x1 and y0 <= y < y1 row by row. */
    method PaintRect(a: array<Colour>, x0: nat, y0: nat, x1: nat, y1: nat, f: (nat, nat) -> Colour)
      requires w <= pitch && a.Length >= pitch * h && x0 <= x1 <= w && y0 <= y1 <= h
      modifies a
      ensures forall px, py :: OnScreen(px, py) ==>
                Get(a, px, py) == if x0 <= px < x1 && y0 <= py < y1 then f(px, py) else old(Get(a, px, py))
    {
      for y := y0 to y1
        invariant forall px, py :: OnScreen(px, py) ==>
                    Get(a, px, py) == if x0 <= px < x1 && y0 <= py < y then f(px, py) else old(Get(a, px, py))
      {
        PaintRow(a, y, x0, x1, x => f(x, y));
      }
    }

    /** One pixel of the cursor. */
    method Dot(a: array<Colour>, x: nat, y: nat)
      requires w <= pitch && a.Length >= pitch * h && OnScreen(x, y)
      modifies a
      ensures forall px, py :: OnScreen(px, py) ==>
                Get(a, px, py) == if px == x && py == y then WHITE else old(Get(a, px, py))
    {
      PaintRow(a, y, x, x + 1, _ => WHITE);
    }

    /** One row of the cursor, as far as it lies in the clip rectangle. */
    method CursorRow(a: array<Colour>, cx: int, sy: nat, span: nat, clip: Rect)
      requires w <= pitch && a.Length >= pitch * h && sy < h && clip.y <= sy < clip.y + clip.h
      modifies a
      ensures forall px, py :: OnScreen(px, py) ==>
                Get(a, px, py) == if py == sy && 0 <= px - cx < span && InRect(clip, px, py) then WHITE
                                  else old(Get(a, px, py))
    {
      for x := 0 to span
        invariant forall px, py :: OnScreen(px, py) ==>
                    Get(a, px, py) == if py == sy && 0 <= px - cx < x && InRect(clip, px, py) then WHITE
                                      else old(Get(a, px, py))
      {
        var sx := cx + x;
        if sx < 0 || sx >= w {
          continue;
        }
        if sx < clip.x || sx >= clip.x + clip.w {
          continue;
        }
        Dot(a, sx, sy);
      }
    }

    /** `fb_draw_cursor_clipped` */
    method DrawCursorClipped(a: array<Colour>, cx: int, cy: int, clip: Rect)
      requires w <= pitch && a.Length >= pitch * h
      modifies a
      ensures forall px, py :: OnScreen(px, py) ==>
                Get(a, px, py) == if InCursor(cx, cy, px, py) && InRect(clip, px, py) then WHITE
                                  else old(Get(a, px, py))
    {
      for y := 0 to 12
        invariant forall px, py :: OnScreen(px, py) ==>
                    Get(a, px, py) == if py - cy < y && InCursor(cx, cy, px, py) && InRect(clip, px, py) then WHITE
                                      else old(Get(a, px, py))
      {
        var sy := cy + y;
        if sy < 0 || sy >= h {
          continue;
        }
        if sy < clip.y || sy >= clip.y + clip.h {
          continue;
        }
        CursorRow(a, cx, sy, if y + 1 > 10 then 10 else y + 1, clip);
      }
    }

    /** A rectangle cut to the screen. */
    function Clip(r: Rect): (c: Rect)
      ensures c.w > 0 && c.h > 0 ==> 0 <= c.x && 0 <= c.y && c.x + c.w <= w && c.y + c.h <= h
      ensures r.w > 0 && r.h > 0 && c.w > 0 && c.h > 0 ==>
                forall x, y :: OnScreen(x, y) ==> (InRect(c, x, y) <==> InRect(r, x, y))
      ensures r.w > 0 && r.h > 0 && (c.w <= 0 || c.h <= 0) ==> forall x, y :: OnScreen(x, y) ==> !InRect(r, x, y)
    {
      var (x, w1) := if r.x < 0 then (0, r.w + r.x) else (r.x, r.w);
      var (y, h1) := if r.y < 0 then (0, r.h + r.y) else (r.y, r.h);
      Rect(x, y, if x + w1 > w then w - x else w1, if y + h1 > h then h - y else h1)
    }

    /** `fb_blit_rect`: copies a rectangle of the back buffer to the frame buffer. */
    method Blit(r: Rect)
      requires Valid()
      modifies fb
      ensures forall px, py :: OnScreen(px, py) ==>
                Get(fb, px, py) == if InRect(r, px, py) then Get(back, px, py) else old(Get(fb, px, py))
    {
      if r.w <= 0 || r.h <= 0 {
        return;
      }
      var c := Clip(r);
      if c.w <= 0 || c.h <= 0 {
        return;
      }
      for row := 0 to c.h
        invariant forall px, py :: OnScreen(px, py) ==>
                    Get(fb, px, py) == if InRect(c, px, py) && py < c.y + row then Get(back, px, py)
                                       else old(Get(fb, px, py))
      {
        BlitRow(c.y + row, c.x, c.x + c.w);
      }
    }

    method BlitRow(y: nat, x0: nat, x1: nat)
      requires Valid() && y < h && x0 <= x1 <= w
      modifies fb
      ensures forall px, py :: OnScreen(px, py) ==>
                Get(fb, px, py) == if py == y && x0 <= px < x1 then Get(back, px, py) else old(Get(fb, px, py))
    {
      var line := back[..];
      PaintRow(fb, y, x0, x1, x => if Idx(pitch, x, y) < |line| then line[Idx(pitch, x, y)] else 0);
      forall px, py | OnScreen(px, py) && py == y && x0 <= px < x1 ensures Get(fb, px, py) == Get(back, px, py) {
        IdxBound(pitch, h, px, py);
      }
    }

    /** A buffer shows the full picture, but for the stale pixels. */
    ghost predicate Shows(a: array<Colour>, wins: seq<Slot>, cx: int, cy: int, stale: iset<Point>)
      requires w <= pitch && a.Length >= pitch * h
      reads a
    {
      forall x, y :: OnScreen(x, y) && (x, y) !in stale ==> Get(a, x, y) == Render(wins, cx, cy, x, y)
    }

    /** Back buffer and frame buffer both show the full picture, but for the stale pixels. */
    ghost predicate Synced(wins: seq<Slot>, cx: int, cy: int, stale: iset<Point>)
      requires Valid()
      reads back, fb
    {
      Shows(back, wins, cx, cy, stale) && Shows(fb, wins, cx, cy, stale)
    }

    /** The word of a buffer for this pixel of the screen is the one the picture should have there. */
    ghost predicate Displays(a: array<Colour>, wins: seq<Slot>, cx: int, cy: int, x: nat, y: nat)
      reads a
    {
      y * pitch + x < a.Length && Pictured(wins, cx, cy, x, y, a[y * pitch + x])
    }

    lemma ShowsIsDisplayed(a: array<Colour>, wins: seq<Slot>, cx: int, cy: int, x: nat, y: nat)
      requires w <= pitch && a.Length >= pitch * h && OnScreen(x, y)
      requires Get(a, x, y) == Render(wins, cx, cy, x, y)
      ensures Displays(a, wins, cx, cy, x, y)
    {
      IdxBound(pitch, h, x, y);
      RenderIff(wins, cx, cy, x, y, a[Idx(pitch, x, y)]);
    }

    /** Copies the part of a window that lies in a rectangle of the screen. */
    method PaintWindow(win: Win, r: Rect)
      requires Valid() && win.buf.Some? && 0 <= r.x && 0 <= r.y && r.x + r.w <= w && r.y + r.h <= h
      modifies back
      ensures forall x, y :: OnScreen(x, y) ==>
                Get(back, x, y) ==
                if InRect(r, x, y) && Around(Live(win), x, y) then WordAt(win, x, y) else old(Get(back, x, y))
    {
      var ox0, oy0 := Max(r.x, win.x), Max(r.y, win.y);
      var ox1, oy1 := Min(r.x + r.w, win.x + win.w), Min(r.y + r.h, win.y + win.h);
      if ox1 <= ox0 || oy1 <= oy0 {
        return;
      }
      PaintRect(back, ox0, oy0, ox1, oy1, (x, y) => Fetch(win, x, y));
    }

    /** `composite_full`: repaints everything. */
    method CompositeFull(wins: seq<Slot>, cx: int, cy: int)
      requires Valid()
      modifies back, fb
      ensures Synced(wins, cx, cy, iset{})
      ensures forall x: nat, y: nat :: x < w && y < h ==> Displays(fb, wins, cx, cy, x, y)
    {
      PaintAll(wins, cx, cy);
      SyncedIsDisplayed(wins, cx, cy, iset{});
    }

    /** What lies in both buffers is what the picture should have, but for the stale pixels. */
    lemma SyncedIsDisplayed(wins: seq<Slot>, cx: int, cy: int, stale: iset<Point>)
      requires Valid() && Synced(wins, cx, cy, stale)
      ensures forall x: nat, y: nat :: x < w && y < h && (x, y) !in stale ==>
                Displays(back, wins, cx, cy, x, y) && Displays(fb, wins, cx, cy, x, y)
    {
      forall x: nat, y: nat | x < w && y < h && (x, y) !in stale
        ensures Displays(back, wins, cx, cy, x, y) && Displays(fb, wins, cx, cy, x, y)
      {
        assert OnScreen(x, y);
        ShowsIsDisplayed(back, wins, cx, cy, x, y);
        ShowsIsDisplayed(fb, wins, cx, cy, x, y);
      }
    }

    /** Backdrop, windows and cursor, and the copy to the frame buffer. */
    method PaintAll(wins: seq<Slot>, cx: int, cy: int)
      requires Valid()
      modifies back, fb
      ensures Synced(wins, cx, cy, iset{})
    {
      var all := Rect(0, 0, w, h);
      PaintRect(back, 0, 0, w, h, (_, _) => BACKDROP);
      for i := 0 to |wins|
        invariant forall x, y :: OnScreen(x, y) ==> Get(back, x, y) == Layers(wins, i, x, y)
      {
        if wins[i].Empty? || wins[i].win.buf.None? {
          continue;
        }
        PaintWindow(wins[i].win, all);
      }
      DrawCursorClipped(back, cx, cy, all);
      Blit(all);
    }

    /** A screen without stale pixels. */
    lemma FreshIsSynced(wins: seq<Slot>, cx: int, cy: int, stale: iset<Point>)
      requires Valid() && Synced(wins, cx, cy, iset{})
      ensures Synced(wins, cx, cy, stale)
    {
    }

    /** `composite_rect`: repaints one rectangle.  Inside it both buffers agree with the full
        picture, outside nothing changes. */
    method CompositeRect(wins: seq<Slot>, cx: int, cy: int, r: Rect)
      requires Valid()
      modifies back, fb
      ensures forall x, y :: OnScreen(x, y) ==>
                Get(back, x, y) == if InRect(r, x, y) then Render(wins, cx, cy, x, y) else old(Get(back, x, y))
      ensures forall x, y :: OnScreen(x, y) ==>
                Get(fb, x, y) == if InRect(r, x, y) then Render(wins, cx, cy, x, y) else old(Get(fb, x, y))
      ensures forall x: nat, y: nat :: x < w && y < h && r.x <= x < r.x + r.w && r.y <= y < r.y + r.h ==>
                Displays(fb, wins, cx, cy, x, y)
    {
      RepaintRect(wins, cx, cy, r);
      forall x: nat, y: nat | x < w && y < h && r.x <= x < r.x + r.w && r.y <= y < r.y + r.h
        ensures Displays(fb, wins, cx, cy, x, y)
      {
        assert OnScreen(x, y);
        ShowsIsDisplayed(fb, wins, cx, cy, x, y);
      }
    }

    /** The clipping of `composite_rect`. */
    method RepaintRect(wins: seq<Slot>, cx: int, cy: int, r: Rect)
      requires Valid()
      modifies back, fb
      ensures forall x, y :: OnScreen(x, y) ==>
                Get(back, x, y) == if InRect(r, x, y) then Render(wins, cx, cy, x, y) else old(Get(back, x, y))
      ensures forall x, y :: OnScreen(x, y) ==>
                Get(fb, x, y) == if InRect(r, x, y) then Render(wins, cx, cy, x, y) else old(Get(fb, x, y))
    {
      if r.w <= 0 || r.h <= 0 {
        return;
      }
      var c := Clip(r);
      if c.w <= 0 || c.h <= 0 {
        return;
      }
      CompositeClipped(wins, cx, cy, c);
    }

    /** The repainting itself, for a rectangle on the screen. */
    method CompositeClipped(wins: seq<Slot>, cx: int, cy: int, c: Rect)
      requires Valid() && c.w > 0 && c.h > 0 && 0 <= c.x && 0 <= c.y && c.x + c.w <= w && c.y + c.h <= h
      modifies back, fb
      ensures forall x, y :: OnScreen(x, y) ==>
                Get(back, x, y) == if InRect(c, x, y) then Render(wins, cx, cy, x, y) else old(Get(back, x, y))
      ensures forall x, y :: OnScreen(x, y) ==>
                Get(fb, x, y) == if InRect(c, x, y) then Render(wins, cx, cy, x, y) else old(Get(fb, x, y))
    {
      PaintClipped(wins, c);
      DrawCursorClipped(back, cx, cy, c);
      Blit(c);
    }

    /** Backdrop and windows in a rectangle on the screen. */
    method PaintClipped(wins: seq<Slot>, c: Rect)
      requires Valid() && c.w > 0 && c.h > 0 && 0 <= c.x && 0 <= c.y && c.x + c.w <= w && c.y + c.h <= h
      modifies back
      ensures forall x, y :: OnScreen(x, y) ==>
                Get(back, x, y) == if InRect(c, x, y) then Layers(wins, |wins|, x, y) else old(Get(back, x, y))
    {
      PaintRect(back, c.x, c.y, c.x + c.w, c.y + c.h, (_, _) => BACKDROP);
      for i := 0 to |wins|
        invariant forall x, y :: OnScreen(x, y) ==>
                    Get(back, x, y) == if InRect(c, x, y) then Layers(wins, i, x, y) else old(Get(back, x, y))
      {
        if wins[i].Empty? || wins[i].win.buf.None? {
          continue;
        }
        PaintWindow(wins[i].win, c);
      }
    }

    /** Repainting a rectangle is enough when it covers every pixel that changed. */
    method Refresh(wins: seq<Slot>, cx: int, cy: int, r: Rect, ghost stale: iset<Point>,
                   ghost was: seq<Slot>, ghost wasX: int, ghost wasY: int)
      requires Valid() && Synced(was, wasX, wasY, stale)
      requires forall x, y :: OnScreen(x, y) && !InRect(r, x, y) ==>
                 Render(was, wasX, wasY, x, y) == Render(wins, cx, cy, x, y)
      modifies back, fb
      ensures Synced(wins, cx, cy, stale)
    {
      CompositeRect(wins, cx, cy, r);
    }
  }
}
