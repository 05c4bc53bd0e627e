/** The digital differential analyser `Line` runs on a clipped segment: it
    steps one pixel at a time along the major axis (the one with the larger
    extent, x on a tie) from the nearer endpoint, and follows the minor axis
    in 13-bit fixed point (units of 1/8192), truncating as C# does.  The far
    endpoint itself is never plotted. */
module Rasterizer {
  import opened CSharpInt
  import opened Pixels
  import opened Clipping

  /** The minor-axis coordinate at step `i`: the fixed-point accumulator
      `start * 8192 + i * slope`, divided back by 8192 with truncation. */
  function Minor(start: int, slope: int, i: int): int
  {
    Quot(start * 8192 + i * slope, 8192)
  }

  /** The fixed-point slope: minor extent times 8192 over the major extent. */
  function Slope(from: int, to: int, l: int): int
    requires l != 0
  {
    Quot((to - from) * 8192, l)
  }

  /** The major axis is x: the x extent is at least the y extent. */
  predicate XMajor(x1: int, y1: int, x2: int, y2: int)
  {
    Abs(x2 - x1) >= Abs(y2 - y1)
  }

  /** The points `Line` plots for the segment from `(x1, y1)` to `(x2, y2)`,
      in the order it plots them. */
  function Raster(x1: int, y1: int, x2: int, y2: int): seq<Point>
  {
    if XMajor(x1, y1, x2, y2) then
      var (sx, sy, ex, ey) := if x2 < x1 then (x2, y2, x1, y1) else (x1, y1, x2, y2);
      var l := ex - sx;
      if l == 0 then []
      else
        var dy := Slope(sy, ey, l);
        seq(l, i => Point(sx + i, Minor(sy, dy, i)))
    else
      var (sx, sy, ex, ey) := if y2 < y1 then (x2, y2, x1, y1) else (x1, y1, x2, y2);
      var l := ey - sy;
      if l == 0 then []
      else
        var dx := Slope(sx, ex, l);
        seq(l, i => Point(Minor(sx, dx, i), sy + i))
  }

  /** The endpoint the rasteriser starts from. */
  function Near(x1: int, y1: int, x2: int, y2: int): Point
  {
    if XMajor(x1, y1, x2, y2) then
      (if x2 < x1 then Point(x2, y2) else Point(x1, y1))
    else
      (if y2 < y1 then Point(x2, y2) else Point(x1, y1))
  }

  /** The endpoint the rasteriser stops short of. */
  function Far(x1: int, y1: int, x2: int, y2: int): Point
  {
    if XMajor(x1, y1, x2, y2) then
      (if x2 < x1 then Point(x1, y1) else Point(x2, y2))
    else
      (if y2 < y1 then Point(x1, y1) else Point(x2, y2))
  }

  // ----- fixed-point arithmetic -----

  /** After `i` of `l` steps the accumulator has moved by a part of the
      minor extent (in fixed point), never beyond it. */
  lemma StepsBetween(d: int, l: int, i: int)
    requires 0 < l && Abs(d) <= l && 0 <= i <= l
    ensures Between(i * Quot(d * 8192, l), 0, d * 8192)
  {
    var s := Quot(d * 8192, l);
    SlopeBounds(d, l);
    ScaledBetween(s, i, l);
    assert l * s == s * l;
  }

  /** Between the two steps `0` and `l`, the accumulator stays non-negative
      and the minor coordinate stays between the two endpoints' minor
      coordinates. */
  lemma MinorBetween(v0: int, v1: int, l: int, i: int)
    requires 0 <= v0 && 0 <= v1 && 0 < l && Abs(v1 - v0) <= l && 0 <= i <= l
    ensures 0 <= v0 * 8192 + i * Slope(v0, v1, l)
    ensures Between(Minor(v0, Slope(v0, v1, l), i), v0, v1)
  {
    var s := Slope(v0, v1, l);
    StepsBetween(v1 - v0, l, i);
    var acc := v0 * 8192 + i * s;
    assert Between(acc, v0 * 8192, v1 * 8192);
    FixedPointBetween(acc, v0, v1);
  }

  lemma FixedPointBetween(acc: int, v0: int, v1: int)
    requires 0 <= v0 && 0 <= v1 && Between(acc, v0 * 8192, v1 * 8192)
    ensures 0 <= acc && Between(Quot(acc, 8192), v0, v1)
  {
  }

  /** Successive minor coordinates differ by at most one when the slope is at
      most one pixel per step. */
  lemma MinorAdjacent(v0: int, s: int, i: int)
    requires Abs(s) <= 8192
    requires 0 <= v0 * 8192 + i * s && 0 <= v0 * 8192 + (i + 1) * s
    ensures Abs(Minor(v0, s, i + 1) - Minor(v0, s, i)) <= 1
  {
    assert v0 * 8192 + (i + 1) * s == v0 * 8192 + i * s + s;
  }

  // ----- what the rasteriser plots -----

  /** The minor coordinates of a run of `l` steps from minor coordinate
      `m0` towards `m1`, both inside `[0, size)`: each inside, successive ones
      at most one apart. */
  lemma RunShape(m0: int, m1: int, l: int, size: int)
    requires 0 <= m0 < size && 0 <= m1 < size && 0 < l && Abs(m1 - m0) <= l
    ensures Minor(m0, Slope(m0, m1, l), 0) == m0
    ensures forall i :: 0 <= i < l ==> 0 <= Minor(m0, Slope(m0, m1, l), i) < size
    ensures forall i :: 0 < i < l ==>
      Abs(Minor(m0, Slope(m0, m1, l), i) - Minor(m0, Slope(m0, m1, l), i - 1)) <= 1
  {
    var s := Slope(m0, m1, l);
    forall i | 0 <= i < l
      ensures 0 <= Minor(m0, s, i) < size
    {
      MinorBetween(m0, m1, l, i);
    }
    forall i | 0 < i < l
      ensures Abs(Minor(m0, s, i) - Minor(m0, s, i - 1)) <= 1
    {
      RunStep(m0, m1, l, i);
    }
  }

  lemma RunStep(m0: int, m1: int, l: int, i: int)
    requires 0 <= m0 && 0 <= m1 && 0 < i < l && Abs(m1 - m0) <= l
    ensures Abs(Minor(m0, Slope(m0, m1, l), i) - Minor(m0, Slope(m0, m1, l), i - 1)) <= 1
  {
    SlopeBounds(m1 - m0, l);
    MinorBetween(m0, m1, l, i - 1);
    MinorBetween(m0, m1, l, i);
    MinorAdjacent(m0, Slope(m0, m1, l), i - 1);
  }

  /** For a segment inside the window: one point per step of the major
      extent, starting at the near endpoint, each inside the window, the
      major coordinate advancing by exactly one and the minor by at most one
      per step (no gaps), and the far endpoint never plotted. */
  lemma RasterShape(w: int, h: int, x1: int, y1: int, x2: int, y2: int)
    requires InWindow(w, h, x1, y1) && InWindow(w, h, x2, y2)
    ensures var r := Raster(x1, y1, x2, y2);
      && |r| == (if XMajor(x1, y1, x2, y2) then Abs(x2 - x1) else Abs(y2 - y1))
      && (|r| > 0 ==> r[0] == Near(x1, y1, x2, y2))
      && (forall k :: 0 <= k < |r| ==> InWindow(w, h, r[k].x, r[k].y))
      && (forall k :: 0 <= k < |r| ==> r[k] != Far(x1, y1, x2, y2))
      && (forall k :: 0 < k < |r| ==>
            if XMajor(x1, y1, x2, y2)
            then r[k].x == r[k - 1].x + 1 && Abs(r[k].y - r[k - 1].y) <= 1
            else r[k].y == r[k - 1].y + 1 && Abs(r[k].x - r[k - 1].x) <= 1)
  {
    if x1 == x2 && y1 == y2 {
    } else if XMajor(x1, y1, x2, y2) {
      XRasterShape(w, h, x1, y1, x2, y2);
    } else {
      YRasterShape(w, h, x1, y1, x2, y2);
    }
  }

  /** `RasterShape` for a segment whose major axis is x. */
  lemma XRasterShape(w: int, h: int, x1: int, y1: int, x2: int, y2: int)
    requires InWindow(w, h, x1, y1) && InWindow(w, h, x2, y2)
    requires XMajor(x1, y1, x2, y2) && x1 != x2
    ensures var r := Raster(x1, y1, x2, y2);
      && |r| == Abs(x2 - x1)
      && r[0] == Near(x1, y1, x2, y2)
      && (forall k :: 0 <= k < |r| ==> InWindow(w, h, r[k].x, r[k].y))
      && (forall k :: 0 <= k < |r| ==> r[k] != Far(x1, y1, x2, y2))
      && (forall k :: 0 < k < |r| ==> r[k].x == r[k - 1].x + 1 && Abs(r[k].y - r[k - 1].y) <= 1)
  {
    var r := Raster(x1, y1, x2, y2);
    if x2 < x1 {
      var l := x1 - x2;
      assert r == seq(l, i => Point(x2 + i, Minor(y2, Slope(y2, y1, l), i)));
      assert Near(x1, y1, x2, y2) == Point(x2, y2) && Far(x1, y1, x2, y2) == Point(x1, y1);
      XRun(w, h, x2, y2, x1, y1, r);
    } else {
      var l := x2 - x1;
      assert r == seq(l, i => Point(x1 + i, Minor(y1, Slope(y1, y2, l), i)));
      assert Near(x1, y1, x2, y2) == Point(x1, y1) && Far(x1, y1, x2, y2) == Point(x2, y2);
      XRun(w, h, x1, y1, x2, y2, r);
    }
  }

  /** The x-major raster from `(sx, sy)` towards `(ex, ey)`, `sx < ex`. */
  lemma XRun(w: int, h: int, sx: int, sy: int, ex: int, ey: int, r: seq<Point>)
    requires InWindow(w, h, sx, sy) && InWindow(w, h, ex, ey)
    requires sx < ex && Abs(ey - sy) <= ex - sx
    requires r == seq(ex - sx, i => Point(sx + i, Minor(sy, Slope(sy, ey, ex - sx), i)))
    ensures |r| == ex - sx && r[0] == Point(sx, sy)
    ensures forall k :: 0 <= k < |r| ==> InWindow(w, h, r[k].x, r[k].y) && r[k].x < ex
    ensures forall k :: 0 < k < |r| ==> r[k].x == r[k - 1].x + 1 && Abs(r[k].y - r[k - 1].y) <= 1
  {
    RunShape(sy, ey, ex - sx, h);
  }

  /** `RasterShape` for a segment whose major axis is y. */
  lemma YRasterShape(w: int, h: int, x1: int, y1: int, x2: int, y2: int)
    requires InWindow(w, h, x1, y1) && InWindow(w, h, x2, y2)
    requires !XMajor(x1, y1, x2, y2)
    ensures var r := Raster(x1, y1, x2, y2);
      && |r| == Abs(y2 - y1)
      && r[0] == Near(x1, y1, x2, y2)
      && (forall k :: 0 <= k < |r| ==> InWindow(w, h, r[k].x, r[k].y))
      && (forall k :: 0 <= k < |r| ==> r[k] != Far(x1, y1, x2, y2))
      && (forall k :: 0 < k < |r| ==> r[k].y == r[k - 1].y + 1 && Abs(r[k].x - r[k - 1].x) <= 1)
  {
    var r := Raster(x1, y1, x2, y2);
    if y2 < y1 {
      var l := y1 - y2;
      assert r == seq(l, i => Point(Minor(x2, Slope(x2, x1, l), i), y2 + i));
      assert Near(x1, y1, x2, y2) == Point(x2, y2) && Far(x1, y1, x2, y2) == Point(x1, y1);
      YRun(w, h, x2, y2, x1, y1, r);
    } else {
      var l := y2 - y1;
      assert r == seq(l, i => Point(Minor(x1, Slope(x1, x2, l), i), y1 + i));
      assert Near(x1, y1, x2, y2) == Point(x1, y1) && Far(x1, y1, x2, y2) == Point(x2, y2);
      YRun(w, h, x1, y1, x2, y2, r);
    }
  }

  /** The y-major raster from `(sx, sy)` towards `(ex, ey)`, `sy < ey`. */
  lemma YRun(w: int, h: int, sx: int, sy: int, ex: int, ey: int, r: seq<Point>)
    requires InWindow(w, h, sx, sy) && InWindow(w, h, ex, ey)
    requires sy < ey && Abs(ex - sx) <= ey - sy
    requires r == seq(ey - sy, i => Point(Minor(sx, Slope(sx, ex, ey - sy), i), sy + i))
    ensures |r| == ey - sy && r[0] == Point(sx, sy)
    ensures forall k :: 0 <= k < |r| ==> InWindow(w, h, r[k].x, r[k].y) && r[k].y < ey
    ensures forall k :: 0 < k < |r| ==> r[k].y == r[k - 1].y + 1 && Abs(r[k].x - r[k - 1].x) <= 1
  {
    RunShape(sx, ex, ey - sy, w);
  }

  /** The points `Line` plots: nothing when clipping rejects the segment,
      otherwise the raster of the clipped segment.  Every point lies in the
      window; a segment whose endpoints share an outside region plots
      nothing; a segment inside the window is rastered as it is. */
  function LinePoints(w: int, h: int, x1: int, y1: int, x2: int, y2: int): (r: seq<Point>)
    requires 0 <= w && 0 <= h
    ensures forall k :: 0 <= k < |r| ==> InWindow(w, h, r[k].x, r[k].y)
    ensures (Outcode(w, h, x1, y1) & Outcode(w, h, x2, y2)) != 0 ==> r == []
    ensures InWindow(w, h, x1, y1) && InWindow(w, h, x2, y2) ==> r == Raster(x1, y1, x2, y2)
  {
    match Clip(w, h, x1, y1, x2, y2)
    case Rejected => []
    case Accepted(a, b, c, d) =>
      RasterShape(w, h, a, b, c, d);
      Raster(a, b, c, d)
  }
}
