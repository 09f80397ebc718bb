/** Line drawing of libgui: the error-term walk against the ideal line. */
module LineDraw {
  import opened Arithmetic

  type Colour = nat
  type Point = (int, int)

  /** A distance taken in the direction of `way`. */
  function Toward(way: int, m: int): int { if way < 0 then -m else m }

  /** How far a line with slope minor/major has moved on the minor axis after `k` steps: the ideal
      value k*minor/major rounded to the nearest integer, halves rounded down. */
  function Minor(major: nat, minor: nat, k: nat): nat
    requires major > 0
  {
    (2 * minor * k + major - 1) / (2 * major)
  }

  /** Within half a pixel of the ideal line. */
  ghost predicate Near(major: nat, minor: nat, k: nat, m: int) {
    -(major as int) < 2 * (minor * k - major * m) <= major
  }

  lemma {:induction false} MinorIsNearest(major: nat, minor: nat, k: nat)
    requires major > 0
    ensures Near(major, minor, k, Minor(major, minor, k))
  {
    var n, d := 2 * minor * k + major - 1, 2 * major;
    var m := n / d;
    assert n == m * d + n % d;
    assert m * d == 2 * (major * m);
    assert 2 * minor * k == 2 * (minor * k);
  }

  lemma NearIsUnique(major: nat, minor: nat, k: nat, m: int, m': int)
    requires major > 0 && Near(major, minor, k, m) && Near(major, minor, k, m')
    ensures m == m'
  {
    assert major * m - major * m' == (m - m') * major;
    MulBounds(m - m', major);
  }

  lemma NearIsMinor(major: nat, minor: nat, k: nat, m: int)
    requires major > 0 && Near(major, minor, k, m)
    ensures m == Minor(major, minor, k)
  {
    MinorIsNearest(major, minor, k);
    NearIsUnique(major, minor, k, m, Minor(major, minor, k));
  }

  /** The walk ends on the far coordinate. */
  lemma MinorAtEnd(major: nat, minor: nat)
    requires major > 0
    ensures Minor(major, minor, 0) == 0 && Minor(major, minor, major) == minor
  {
    MinorIsNearest(major, minor, major);
    assert minor * major - major * minor == 0;
    NearIsUnique(major, minor, major, Minor(major, minor, major), minor);
    assert (major - 1) / (2 * major) == 0;
  }

  /** The error term of the loop after `k` steps with `m` minor steps taken. */
  ghost predicate ErrorTerm(major: nat, minor: nat, k: nat, m: int, d: int) {
    d == 2 * minor * (k + 1) - major * (2 * m + 1)
  }

  /** One iteration: the test on the error term takes the nearest next pixel. */
  lemma Advance(major: nat, minor: nat, k: nat, m: int, d: int)
    requires minor <= major && major > 0
    requires Near(major, minor, k, m) && ErrorTerm(major, minor, k, m, d)
    ensures d > 0 ==> Near(major, minor, k + 1, m + 1) && ErrorTerm(major, minor, k + 1, m + 1, d - 2 * major + 2 * minor)
    ensures d <= 0 ==> Near(major, minor, k + 1, m) && ErrorTerm(major, minor, k + 1, m, d + 2 * minor)
  {
    assert minor * (k + 1) == minor * k + minor;
    assert minor * (k + 2) == minor * k + 2 * minor;
    assert major * (m + 1) == major * m + major;
    assert major * (2 * m + 1) == 2 * (major * m) + major;
    assert major * (2 * (m + 1) + 1) == 2 * (major * m) + 3 * major;
    assert 2 * minor * (k + 1) == 2 * (minor * (k + 1));
    assert 2 * minor * (k + 2) == 2 * (minor * (k + 2));
  }

  predicate Int32(x: int) { -0x8000_0000 <= x < 0x8000_0000 }

  /** The error term stays within twice the longer extent, also in the middle of an iteration; so lines
      with extents below 2^30 never leave 32 bits. */
  lemma ErrorTermRange(major: nat, minor: nat, k: nat, m: int, d: int)
    requires minor <= major && Near(major, minor, k, m) && ErrorTerm(major, minor, k, m, d)
    ensures -2 * major < d <= 2 * major
    ensures major < 0x4000_0000 ==>
              && Int32(2 * major) && Int32(2 * minor) && Int32(d)
              && if d > 0 then Int32(d - 2 * major) && Int32(d - 2 * major + 2 * minor) else Int32(d + 2 * minor)
  {
    assert minor * (k + 1) == minor * k + minor;
    assert major * (2 * m + 1) == 2 * (major * m) + major;
    assert 2 * minor * (k + 1) == 2 * (minor * (k + 1));
  }

  /** Minor steps taken and error term after `k` iterations of the drawing loop. */
  function Walk(major: nat, minor: nat, k: nat): (int, int) {
    if k == 0 then (0, 2 * minor - major)
    else
      var (m, d) := Walk(major, minor, k - 1);
      if d > 0 then (m + 1, d - 2 * major + 2 * minor) else (m, d + 2 * minor)
  }

  lemma {:induction false} WalkNext(major: nat, minor: nat, k: nat, m: int, d: int)
    requires (m, d) == Walk(major, minor, k)
    ensures Walk(major, minor, k + 1) == if d > 0 then (m + 1, d - 2 * major + 2 * minor) else (m, d + 2 * minor)
  {
  }

  /** The loop takes exactly the nearest points. */
  lemma {:induction false} WalkIsMinor(major: nat, minor: nat, k: nat)
    requires minor <= major && major > 0
    ensures Near(major, minor, k, Walk(major, minor, k).0)
    ensures ErrorTerm(major, minor, k, Walk(major, minor, k).0, Walk(major, minor, k).1)
    ensures Walk(major, minor, k).0 == Minor(major, minor, k)
  {
    if k > 0 {
      WalkIsMinor(major, minor, k - 1);
      var (m, d) := Walk(major, minor, k - 1);
      Advance(major, minor, k - 1, m, d);
    }
    NearIsMinor(major, minor, k, Walk(major, minor, k).0);
  }

  lemma {:induction false} WalkMinor(major: nat, minor: nat, k: nat)
    requires minor <= major && major > 0
    ensures Walk(major, minor, k).0 == Minor(major, minor, k)
  {
    WalkIsMinor(major, minor, k);
  }

  // ---- The points of a line ----

  /** Shallow lines step along x and leave out the far end. */
  function LowPoints(x0: int, y0: int, x1: int, y1: int): seq<Point>
    requires x0 < x1
  {
    seq(x1 - x0, k requires 0 <= k < x1 - x0 => (x0 + k, y0 + Toward(y1 - y0, Minor(x1 - x0, Abs(y1 - y0), k))))
  }

  /** Steep lines step along y. */
  function HighPoints(x0: int, y0: int, x1: int, y1: int): seq<Point>
    requires y0 < y1
  {
    seq(y1 - y0, k requires 0 <= k < y1 - y0 => (x0 + Toward(x1 - x0, Minor(y1 - y0, Abs(x1 - x0), k)), y0 + k))
  }

  /** Horizontal and vertical lines include both ends. */
  function RowPoints(x0: int, x1: int, y: int): seq<Point> {
    var a, n := if x0 > x1 then x1 else x0, Abs(x1 - x0) + 1;
    seq(n, k requires 0 <= k < n => (a + k, y))
  }

  function ColumnPoints(x: int, y0: int, y1: int): seq<Point> {
    var a, n := if y0 > y1 then y1 else y0, Abs(y1 - y0) + 1;
    seq(n, k requires 0 <= k < n => (x, a + k))
  }

  function LinePoints(x0: int, y0: int, x1: int, y1: int): seq<Point> {
    if y0 == y1 then RowPoints(x0, x1, y0)
    else if x0 == x1 then ColumnPoints(x0, y0, y1)
    else if Abs(y1 - y0) < Abs(x1 - x0) then
      if x0 > x1 then LowPoints(x1, y1, x0, y0) else LowPoints(x0, y0, x1, y1)
    else if y0 > y1 then HighPoints(x1, y1, x0, y0) else HighPoints(x0, y0, x1, y1)
  }

  /** A line does not depend on the order of its ends. */
  lemma LineIsSymmetric(x0: int, y0: int, x1: int, y1: int)
    ensures LinePoints(x0, y0, x1, y1) == LinePoints(x1, y1, x0, y0)
  {
  }

  /** Every point of a shallow line is within half a pixel of the ideal line. */
  lemma LowPointsAreNear(x0: int, y0: int, x1: int, y1: int, k: nat)
    requires x0 < x1 && k < x1 - x0
    ensures var p := LowPoints(x0, y0, x1, y1)[k];
            p.0 == x0 + k && Near(x1 - x0, Abs(y1 - y0), k, Toward(y1 - y0, p.1 - y0))
  {
    MinorIsNearest(x1 - x0, Abs(y1 - y0), k);
  }

  /** Every point of a steep line is, too. */
  lemma HighPointsAreNear(x0: int, y0: int, x1: int, y1: int, k: nat)
    requires y0 < y1 && k < y1 - y0
    ensures var p := HighPoints(x0, y0, x1, y1)[k];
            p.1 == y0 + k && Near(y1 - y0, Abs(x1 - x0), k, Toward(x1 - x0, p.0 - x0))
  {
    MinorIsNearest(y1 - y0, Abs(x1 - x0), k);
  }

  /** Sideways position `m` after `k` steps is within half a pixel of the line that goes `minor` sideways in
      `major` steps; exact halves go to the side of the start. */
  ghost predicate HalfPixel(major: int, minor: int, k: int, m: int) {
    var d := 2 * (minor * k - major * m);
    if minor < 0 then -major <= d < major else -major < d <= major
  }

  /** The points a line should have: horizontal and vertical ones have both ends; others leave out the end
      with the larger coordinate on the longer axis, and have the nearest point in every step along it. */
  ghost predicate OnLine(x0: int, y0: int, x1: int, y1: int, x: int, y: int) {
    if y0 == y1 then y == y0 && Min(x0, x1) <= x <= Max(x0, x1)
    else if x0 == x1 then x == x0 && Min(y0, y1) <= y <= Max(y0, y1)
    else if Abs(x1 - x0) > Abs(y1 - y0) then
      if x0 < x1 then x0 <= x < x1 && HalfPixel(x1 - x0, y1 - y0, x - x0, y - y0)
      else x1 <= x < x0 && HalfPixel(x0 - x1, y0 - y1, x - x1, y - y1)
    else
      if y0 < y1 then y0 <= y < y1 && HalfPixel(y1 - y0, x1 - x0, y - y0, x - x0)
      else y1 <= y < y0 && HalfPixel(y0 - y1, x0 - x1, y - y1, x - x1)
  }

  lemma HalfPixelIsNear(major: nat, minor: int, k: nat, m: int)
    ensures HalfPixel(major, minor, k, m) <==> Near(major, Abs(minor), k, Toward(minor, m))
  {
    NegatedProducts(major, minor, k, m);
  }

  lemma NegatedProducts(major: int, minor: int, k: int, m: int)
    ensures (-minor) * k - major * (-m) == -(minor * k - major * m)
  {
  }

  lemma LowIff(x0: int, y0: int, x1: int, y1: int, x: int, y: int)
    requires x0 < x1
    ensures (x, y) in LowPoints(x0, y0, x1, y1) <==> x0 <= x < x1 && HalfPixel(x1 - x0, y1 - y0, x - x0, y - y0)
  {
    if x0 <= x < x1 {
      var ps, k := LowPoints(x0, y0, x1, y1), x - x0;
      HalfPixelIsNear(x1 - x0, y1 - y0, k, y - y0);
      MinorIsNearest(x1 - x0, Abs(y1 - y0), k);
      assert ps[k].0 == x;
      if HalfPixel(x1 - x0, y1 - y0, k, y - y0) {
        NearIsMinor(x1 - x0, Abs(y1 - y0), k, Toward(y1 - y0, y - y0));
        assert ps[k] == (x, y);
      }
    }
  }

  lemma HighIff(x0: int, y0: int, x1: int, y1: int, x: int, y: int)
    requires y0 < y1
    ensures (x, y) in HighPoints(x0, y0, x1, y1) <==> y0 <= y < y1 && HalfPixel(y1 - y0, x1 - x0, y - y0, x - x0)
  {
    if y0 <= y < y1 {
      var ps, k := HighPoints(x0, y0, x1, y1), y - y0;
      HalfPixelIsNear(y1 - y0, x1 - x0, k, x - x0);
      MinorIsNearest(y1 - y0, Abs(x1 - x0), k);
      assert ps[k].1 == y;
      if HalfPixel(y1 - y0, x1 - x0, k, x - x0) {
        NearIsMinor(y1 - y0, Abs(x1 - x0), k, Toward(x1 - x0, x - x0));
        assert ps[k] == (x, y);
      }
    }
  }

  lemma RowMember(x0: int, x1: int, y: int, p: Point)
    ensures p in RowPoints(x0, x1, y) <==> p.1 == y && Min(x0, x1) <= p.0 <= Max(x0, x1)
  {
    if p.1 == y && Min(x0, x1) <= p.0 <= Max(x0, x1) {
      assert RowPoints(x0, x1, y)[p.0 - Min(x0, x1)] == p;
    }
  }

  lemma ColumnMember(x: int, y0: int, y1: int, p: Point)
    ensures p in ColumnPoints(x, y0, y1) <==> p.0 == x && Min(y0, y1) <= p.1 <= Max(y0, y1)
  {
    if p.0 == x && Min(y0, y1) <= p.1 <= Max(y0, y1) {
      assert ColumnPoints(x, y0, y1)[p.1 - Min(y0, y1)] == p;
    }
  }

  /** The line has exactly these points. */
  lemma LineIff(x0: int, y0: int, x1: int, y1: int, x: int, y: int)
    ensures (x, y) in LinePoints(x0, y0, x1, y1) <==> OnLine(x0, y0, x1, y1, x, y)
  {
    if y0 == y1 {
      RowMember(x0, x1, y0, (x, y));
    } else if x0 == x1 {
      ColumnMember(x0, y0, y1, (x, y));
    } else if Abs(y1 - y0) < Abs(x1 - x0) {
      if x0 > x1 { LowIff(x1, y1, x0, y0, x, y); } else { LowIff(x0, y0, x1, y1, x, y); }
    } else {
      if y0 > y1 { HighIff(x1, y1, x0, y0, x, y); } else { HighIff(x0, y0, x1, y1, x, y); }
    }
  }

  /** The loop stands on point `k` of the line, and after the last step on its far end. */
  lemma {:induction false} LowWalk(x0: int, y0: int, x1: int, y1: int, k: nat)
    requires x0 < x1 && Abs(y1 - y0) <= x1 - x0 && k <= x1 - x0
    ensures var y := y0 + Toward(y1 - y0, Walk(x1 - x0, Abs(y1 - y0), k).0);
            if k < x1 - x0 then LowPoints(x0, y0, x1, y1)[k] == (x0 + k, y) else y == y1
  {
    WalkMinor(x1 - x0, Abs(y1 - y0), k);
    MinorAtEnd(x1 - x0, Abs(y1 - y0));
  }

  lemma {:induction false} HighWalk(x0: int, y0: int, x1: int, y1: int, k: nat)
    requires y0 < y1 && Abs(x1 - x0) <= y1 - y0 && k <= y1 - y0
    ensures var x := x0 + Toward(x1 - x0, Walk(y1 - y0, Abs(x1 - x0), k).0);
            if k < y1 - y0 then HighPoints(x0, y0, x1, y1)[k] == (x, y0 + k) else x == x1
  {
    WalkMinor(y1 - y0, Abs(x1 - x0), k);
    MinorAtEnd(y1 - y0, Abs(x1 - x0));
  }

  // ---- Drawing ----

  class Canvas {
    const width: nat
    const height: nat
    /** The colours of the visible pixels. */
    var pixels: map<Point, Colour>

    constructor (width: nat, height: nat)
      ensures this.width == width && this.height == height && pixels == map[]
    {
      this.width, this.height, pixels := width, height, map[];
    }

    predicate Visible(p: Point) {
      0 <= p.0 < width && 0 <= p.1 < height
    }

    /** The canvas after drawing these points in order; points outside it are skipped. */
    ghost function Drawn(px: map<Point, Colour>, ps: seq<Point>, n: nat, col: Colour): map<Point, Colour>
      requires n <= |ps|
    {
      if n == 0 then px
      else
        var r := Drawn(px, ps, n - 1, col);
        if Visible(ps[n - 1]) then r[ps[n - 1] := col] else r
    }

    /** Exactly the visible points get the colour. */
    lemma {:induction false} DrawnIs(px: map<Point, Colour>, ps: seq<Point>, n: nat, col: Colour, p: Point)
      requires n <= |ps|
      ensures var r := Drawn(px, ps, n, col);
              if 0 <= p.0 < width && 0 <= p.1 < height && p in ps[..n] then p in r && r[p] == col
              else (p in r <==> p in px) && (p in px ==> r[p] == px[p])
    {
      if n > 0 {
        DrawnIs(px, ps, n - 1, col, p);
        assert ps[..n] == ps[..n - 1] + [ps[n - 1]];
      }
    }

    /** `draw_pixel` */
    method DrawPixel(x: int, y: int, col: Colour)
      modifies this
      ensures pixels == if Visible((x, y)) then old(pixels)[(x, y) := col] else old(pixels)
    {
      if x < 0 || y < 0 || x >= width || y >= height {
        return;
      }
      pixels := pixels[(x, y) := col];
    }

    /** Drawing the next point of a sequence. */
    method Plot(x: int, y: int, col: Colour, ghost px: map<Point, Colour>, ghost ps: seq<Point>, ghost n: nat)
      requires n < |ps| && ps[n] == (x, y) && pixels == Drawn(px, ps, n, col)
      modifies this
      ensures pixels == Drawn(px, ps, n + 1, col)
    {
      DrawPixel(x, y, col);
    }

    /** The end of a round: the minor coordinate `v` goes on by `step` when the error term says so. */
    method Step(v: int, step: int, D: int, major: nat, minor: nat, ghost k: nat, ghost m: int)
      returns (v': int, D': int, ghost m': int)
      requires (m, D) == Walk(major, minor, k)
      ensures (m', D') == Walk(major, minor, k + 1)
      ensures if m' == m then v' == v else m' == m + 1 && v' == v + step
    {
      WalkNext(major, minor, k, m, D);
      v', D', m' := v, D, m;
      if D' > 0 {
        v' := v + step;
        m' := m + 1;
        D' := D - 2 * major;
      }
      D' := D' + 2 * minor;
    }

    /** `draw_line_low` */
    method DrawLineLow(x0: int, y0: int, x1: int, y1: int, col: Colour) returns (ghost endY: int)
      requires x0 < x1 && Abs(y1 - y0) <= x1 - x0
      modifies this
      ensures pixels == Drawn(old(pixels), LowPoints(x0, y0, x1, y1), x1 - x0, col)
      ensures endY == y1
    {
      var dx, dy, yi := x1 - x0, y1 - y0, 1;
      if dy < 0 {
        yi := -1;
        dy := -dy;
      }
      var D := 2 * dy - dx;
      var y := y0;
      ghost var m := 0;
      ghost var px, ps := pixels, LowPoints(x0, y0, x1, y1);
      for x := x0 to x1
        invariant y == y0 + Toward(y1 - y0, m) && (m, D) == Walk(dx, dy, x - x0)
        invariant pixels == Drawn(px, ps, x - x0, col)
      {
        LowWalk(x0, y0, x1, y1, x - x0);
        Plot(x, y, col, px, ps, x - x0);
        y, D, m := Step(y, yi, D, dx, dy, x - x0, m);
      }
      LowWalk(x0, y0, x1, y1, dx);
      endY := y;
    }

    /** `draw_line_high` */
    method DrawLineHigh(x0: int, y0: int, x1: int, y1: int, col: Colour) returns (ghost endX: int)
      requires y0 < y1 && Abs(x1 - x0) <= y1 - y0
      modifies this
      ensures pixels == Drawn(old(pixels), HighPoints(x0, y0, x1, y1), y1 - y0, col)
      ensures endX == x1
    {
      var dx, dy, xi := x1 - x0, y1 - y0, 1;
      if dx < 0 {
        xi := -1;
        dx := -dx;
      }
      var D := 2 * dx - dy;
      var x := x0;
      ghost var m := 0;
      ghost var px, ps := pixels, HighPoints(x0, y0, x1, y1);
      for y := y0 to y1
        invariant x == x0 + Toward(x1 - x0, m) && (m, D) == Walk(dy, dx, y - y0)
        invariant pixels == Drawn(px, ps, y - y0, col)
      {
        HighWalk(x0, y0, x1, y1, y - y0);
        Plot(x, y, col, px, ps, y - y0);
        x, D, m := Step(x, xi, D, dy, dx, y - y0, m);
      }
      HighWalk(x0, y0, x1, y1, dy);
      endX := x;
    }

    /** What drawing a set of points does to a canvas. */
    ghost predicate Coloured(px: map<Point, Colour>, r: map<Point, Colour>, ps: seq<Point>, col: Colour) {
      forall p: Point ::
        if 0 <= p.0 < width && 0 <= p.1 < height && p in ps then p in r && r[p] == col
        else (p in r <==> p in px) && (p in px ==> r[p] == px[p])
    }

    /** `r` is `px` with the pixels of a row, or of a column, from `a` up to `b` coloured. */
    ghost predicate RowFilled(px: map<Point, Colour>, r: map<Point, Colour>, a: int, b: int, y: int, col: Colour) {
      forall p: Point ::
        if p.1 == y && a <= p.0 < b then p in r && r[p] == col
        else (p in r <==> p in px) && (p in px ==> r[p] == px[p])
    }

    ghost predicate ColumnFilled(px: map<Point, Colour>, r: map<Point, Colour>, x: int, a: int, b: int, col: Colour) {
      forall p: Point ::
        if p.0 == x && a <= p.1 < b then p in r && r[p] == col
        else (p in r <==> p in px) && (p in px ==> r[p] == px[p])
    }

    method FillRow(a: int, b: int, y: int, col: Colour)
      requires a <= b
      modifies this
      ensures RowFilled(old(pixels), pixels, a, b, y, col)
    {
      for x := a to b
        invariant RowFilled(old(pixels), pixels, a, x, y, col)
      {
        pixels := pixels[(x, y) := col];
      }
    }

    method FillColumn(x: int, a: int, b: int, col: Colour)
      requires a <= b
      modifies this
      ensures ColumnFilled(old(pixels), pixels, x, a, b, col)
    {
      for y := a to b
        invariant ColumnFilled(old(pixels), pixels, x, a, y, col)
      {
        pixels := pixels[(x, y) := col];
      }
    }

    /** `draw_line_horizontal`: cut to the canvas first, then drawn. */
    method DrawRow(x0: int, x1: int, y: int, col: Colour)
      modifies this
      ensures Coloured(old(pixels), pixels, RowPoints(x0, x1, y), col)
    {
      var a, b := Min(x0, x1), Max(x0, x1);
      forall p: Point ensures p in RowPoints(x0, x1, y) <==> p.1 == y && a <= p.0 <= b {
        RowMember(x0, x1, y, p);
      }
      if y < 0 || y >= height {
        return;
      }
      if b < 0 || a >= width {
        return;
      }
      FillRow(Max(a, 0), Min(b, width - 1) + 1, y, col);
    }

    /** `draw_line_vertical` */
    method DrawColumn(x: int, y0: int, y1: int, col: Colour)
      modifies this
      ensures Coloured(old(pixels), pixels, ColumnPoints(x, y0, y1), col)
    {
      var a, b := Min(y0, y1), Max(y0, y1);
      forall p: Point ensures p in ColumnPoints(x, y0, y1) <==> p.0 == x && a <= p.1 <= b {
        ColumnMember(x, y0, y1, p);
      }
      if x < 0 || x >= width {
        return;
      }
      if b < 0 || a >= height {
        return;
      }
      FillColumn(x, Max(a, 0), Min(b, height - 1) + 1, col);
    }

    lemma {:induction false} DrawnIsColoured(px: map<Point, Colour>, ps: seq<Point>, col: Colour)
      ensures Coloured(px, Drawn(px, ps, |ps|, col), ps, col)
    {
      forall p: Point ensures if 0 <= p.0 < width && 0 <= p.1 < height && p in ps then p in Drawn(px, ps, |ps|, col) && Drawn(px, ps, |ps|, col)[p] == col
                              else (p in Drawn(px, ps, |ps|, col) <==> p in px) && (p in px ==> Drawn(px, ps, |ps|, col)[p] == px[p]) {
        DrawnIs(px, ps, |ps|, col, p);
        assert ps[..|ps|] == ps;
      }
    }

    /** `draw_line`: colours exactly the visible points of the line, whichever end comes first. */
    method DrawLine(x0: int, y0: int, x1: int, y1: int, col: Colour)
      modifies this
      ensures forall p: Point ::
                if 0 <= p.0 < width && 0 <= p.1 < height && OnLine(x0, y0, x1, y1, p.0, p.1) then p in pixels && pixels[p] == col
                else (p in pixels <==> p in old(pixels)) && (p in old(pixels) ==> pixels[p] == old(pixels)[p])
    {
      DrawPoints(x0, y0, x1, y1, col);
      forall p: Point ensures p in LinePoints(x0, y0, x1, y1) <==> OnLine(x0, y0, x1, y1, p.0, p.1) {
        LineIff(x0, y0, x1, y1, p.0, p.1);
      }
    }

    /** The choice among the four ways of drawing. */
    method DrawPoints(x0: int, y0: int, x1: int, y1: int, col: Colour)
      modifies this
      ensures Coloured(old(pixels), pixels, LinePoints(x0, y0, x1, y1), col)
    {
      if y0 == y1 {
        DrawRow(x0, x1, y0, col);
        return;
      }
      if x0 == x1 {
        DrawColumn(x0, y0, y1, col);
        return;
      }
      DrawnIsColoured(pixels, LinePoints(x0, y0, x1, y1), col);
      if Abs(y1 - y0) < Abs(x1 - x0) {
        if x0 > x1 {
          var _ := DrawLineLow(x1, y1, x0, y0, col);
        } else {
          var _ := DrawLineLow(x0, y0, x1, y1, col);
        }
      } else {
        if y0 > y1 {
          var _ := DrawLineHigh(x1, y1, x0, y0, col);
        } else {
          var _ := DrawLineHigh(x0, y0, x1, y1, col);
        }
      }
    }
  }
}
