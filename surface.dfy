/** The drawing surface of the ray tracer: a `width` by `height` window of
    32-bit colours held in one array, row by row.  Every drawing operation
    is specified by the set of cells it paints (module `Pixels`); `Line` by
    the clipped, rastered points of module `Rasterizer`. */
module Surfaces {
  import opened CSharpInt
  import opened Pixels
  import opened Clipping
  import opened Rasterizer

  /** One step of `Line`'s loop: point `i` of `pts` is a window pixel, and
      painting it extends the cells of `pts[..i]` to those of `pts[..i + 1]`. */
  lemma PlotStep(w: int, h: int, pts: seq<Point>, i: int)
    requires 0 <= i < |pts| && InWindow(w, h, pts[i].x, pts[i].y)
    ensures 0 <= Index(w, pts[i].x, pts[i].y) < w * h
    ensures PointCells(w, pts[..i + 1]) == PointCells(w, pts[..i]) + {Index(w, pts[i].x, pts[i].y)}
  {
    IndexInBuffer(w, h, pts[i].x, pts[i].y);
    assert pts[..i + 1][..i] == pts[..i];
  }

  class Surface {
    var pixels: array<int>
    var width: int
    var height: int

    /** The buffer holds exactly one cell per window pixel. */
    ghost predicate Valid()
      reads this
    {
      0 <= width && 0 <= height && pixels.Length == width * height
    }

    /** A new surface: a fresh buffer of `w * h` cells, all zero. */
    constructor(w: int, h: int)
      requires 0 <= w && 0 <= h
      ensures Valid() && width == w && height == h && fresh(pixels)
      ensures forall i :: 0 <= i < pixels.Length ==> pixels[i] == 0
    {
      width := w;
      height := h;
      pixels := new int[w * h](_ => 0);
    }

    /** Sets every pixel of the window to `c`. */
    method Clear(c: int)
      requires Valid()
      modifies pixels
      ensures forall i :: 0 <= i < pixels.Length ==> pixels[i] == c
    {
      var s := width * height;
      for p := 0 to s
        invariant forall i :: 0 <= i < p ==> pixels[i] == c
      {
        pixels[p] := c;
      }
    }

    /** Copies this surface into `target` with its top-left corner at
        `(x, y)`, clipped to `target`'s window: a target pixel covered by the
        shifted surface takes the colour of the pixel that covers it, every
        other target pixel keeps its colour. */
    method CopyTo(target: Surface, x: int, y: int)
      requires Valid() && target.Valid() && target.pixels != pixels
      modifies target.pixels
      ensures forall tx, ty :: InWindow(target.width, target.height, tx, ty) ==>
        Pixel(target.pixels[..], target.width, target.height, tx, ty) ==
          if InWindow(width, height, tx - x, ty - y)
          then Pixel(pixels[..], width, height, tx - x, ty - y)
          else Pixel(old(target.pixels[..]), target.width, target.height, tx, ty)
      ensures pixels[..] == old(pixels[..])
    {
      var src := 0;
      var dst := 0;
      var srcwidth := width;
      var srcheight := height;
      var dstwidth := target.width;
      var dstheight := target.height;
      var left, top := x, y;
      if srcwidth + left > dstwidth {
        srcwidth := dstwidth - left;
      }
      if srcheight + top > dstheight {
        srcheight := dstheight - top;
      }
      if left < 0 {
        src := src - left;
        srcwidth := srcwidth + left;
        left := 0;
      }
      if top < 0 {
        src := src - top * width;
        srcheight := srcheight + top;
        top := 0;
      }
      // The block copied is exactly where the two windows overlap.
      assert left == (if x < 0 then 0 else x);
      assert left + srcwidth == (if x + width < dstwidth then x + width else dstwidth);
      assert top == (if y < 0 then 0 else y);
      assert top + srcheight == (if y + height < dstheight then y + height else dstheight);
      if srcwidth > 0 && srcheight > 0 {
        dst := dst + left + dstwidth * top;
        CopyBlock(target, x, y, left, top, srcwidth, srcheight, src, dst);
      }
    }

    /** The copying loops of `CopyTo`: the `srcwidth` by `srcheight` block of
        target pixels at `(left, top)` takes the colours of this surface's
        pixels shifted by `(x, y)`; `srcStart` and `dstStart` are the cells
        of the block's first pixel in this surface and in `target`. */
    method CopyBlock(target: Surface, x: int, y: int, left: int, top: int,
                     srcwidth: int, srcheight: int, srcStart: int, dstStart: int)
      requires Valid() && target.Valid() && target.pixels != pixels
      requires 0 <= left && 0 < srcwidth && left + srcwidth <= target.width
      requires 0 <= top && 0 < srcheight && top + srcheight <= target.height
      requires 0 <= left - x && left + srcwidth - x <= width
      requires 0 <= top - y && top + srcheight - y <= height
      requires srcStart == Index(width, left - x, top - y) && dstStart == Index(target.width, left, top)
      modifies target.pixels
      ensures forall tx, ty :: InWindow(target.width, target.height, tx, ty) ==>
        Pixel(target.pixels[..], target.width, target.height, tx, ty) ==
          if left <= tx < left + srcwidth && top <= ty < top + srcheight
          then Pixel(pixels[..], width, height, tx - x, ty - y)
          else Pixel(old(target.pixels[..]), target.width, target.height, tx, ty)
    {
      ghost var before := target.pixels[..];
      var dstwidth, dstheight := target.width, target.height;
      var src, dst := srcStart, dstStart;
      var v := 0;
      while v < srcheight
        invariant 0 <= v <= srcheight
        invariant dst == Index(dstwidth, left, top + v)
        invariant src == Index(width, left - x, top + v - y)
        invariant forall tx, ty :: InWindow(dstwidth, dstheight, tx, ty) ==>
          Pixel(target.pixels[..], dstwidth, dstheight, tx, ty) ==
            if left <= tx < left + srcwidth && top <= ty < top + v
            then Pixel(pixels[..], width, height, tx - x, ty - y)
            else Pixel(before, dstwidth, dstheight, tx, ty)
      {
        var u := 0;
        while u < srcwidth
          invariant 0 <= u <= srcwidth
          invariant forall tx, ty :: InWindow(dstwidth, dstheight, tx, ty) ==>
            Pixel(target.pixels[..], dstwidth, dstheight, tx, ty) ==
              if (left <= tx < left + srcwidth && top <= ty < top + v)
                 || (left <= tx < left + u && ty == top + v)
              then Pixel(pixels[..], width, height, tx - x, ty - y)
              else Pixel(before, dstwidth, dstheight, tx, ty)
        {
          IndexInBuffer(width, height, left + u - x, top + v - y);
          PixelUpdate(target.pixels[..], dstwidth, dstheight, left + u, top + v, pixels[src + u]);
          target.pixels[dst + u] := pixels[src + u];
          u := u + 1;
        }
        IndexNextRow(dstwidth, left, top + v);
        IndexNextRow(width, left - x, top + v - y);
        dst := dst + dstwidth;
        src := src + width;
        v := v + 1;
      }
    }

    /** Paints the outline of the rectangle from `(x1, y1)` to `(x2, y2)`:
        first both columns `x1` and `x2` from row `y1` to row `y2`, then both
        rows `y1` and `y2` from column `x1` to column `x2`.  There is no
        clipping: every cell written must be in the buffer. */
    method Box(x1: int, y1: int, x2: int, y2: int, c: int)
      requires forall y :: y1 <= y <= y2 ==>
        InBuffer(width, pixels.Length, x1, y) && InBuffer(width, pixels.Length, x2, y)
      requires forall x :: x1 <= x <= x2 ==>
        InBuffer(width, pixels.Length, x, y1) && InBuffer(width, pixels.Length, x, y2)
      modifies pixels
      ensures pixels[..] == Paint(old(pixels[..]), BoxCells(width, x1, y1, x2, y2), c)
    {
      BoxColumns(x1, y1, x2, y2, c);
      BoxRows(x1, y1, x2, y2, c);
    }

    /** The first loop of `Box`: columns `x1` and `x2`, rows `y1 .. y2`. */
    method BoxColumns(x1: int, y1: int, x2: int, y2: int, c: int)
      requires forall y :: y1 <= y <= y2 ==>
        InBuffer(width, pixels.Length, x1, y) && InBuffer(width, pixels.Length, x2, y)
      modifies pixels
      ensures forall i :: 0 <= i < pixels.Length ==>
        pixels[i] == if i in ColumnCells(width, x1, y1, y2) + ColumnCells(width, x2, y1, y2)
                     then c else old(pixels[i])
    {
      var dest := y1 * width;
      var y := y1;
      while y <= y2
        invariant y1 <= y && (y <= y2 + 1 || y == y1)
        invariant dest == y * width
        invariant forall i :: 0 <= i < pixels.Length ==>
          pixels[i] == if i in ColumnCells(width, x1, y1, y - 1) + ColumnCells(width, x2, y1, y - 1)
                       then c else old(pixels[i])
      {
        assert InBuffer(width, pixels.Length, x1, y) && InBuffer(width, pixels.Length, x2, y);
        assert ColumnCells(width, x1, y1, y) == ColumnCells(width, x1, y1, y - 1) + {dest + x1};
        assert ColumnCells(width, x2, y1, y) == ColumnCells(width, x2, y1, y - 1) + {dest + x2};
        pixels[dest + x1] := c;
        pixels[dest + x2] := c;
        y, dest := y + 1, dest + width;
      }
    }

    /** The second loop of `Box`: rows `y1` and `y2`, columns `x1 .. x2`. */
    method BoxRows(x1: int, y1: int, x2: int, y2: int, c: int)
      requires forall x :: x1 <= x <= x2 ==>
        InBuffer(width, pixels.Length, x, y1) && InBuffer(width, pixels.Length, x, y2)
      modifies pixels
      ensures forall i :: 0 <= i < pixels.Length ==>
        pixels[i] == if i in RowCells(width, x1, x2, y1) + RowCells(width, x1, x2, y2)
                     then c else old(pixels[i])
    {
      var dest1 := y1 * width;
      var dest2 := y2 * width;
      var x := x1;
      while x <= x2
        invariant x1 <= x && (x <= x2 + 1 || x == x1)
        invariant forall i :: 0 <= i < pixels.Length ==>
          pixels[i] == if i in RowCells(width, x1, x - 1, y1) + RowCells(width, x1, x - 1, y2)
                       then c else old(pixels[i])
      {
        assert InBuffer(width, pixels.Length, x, y1) && InBuffer(width, pixels.Length, x, y2);
        assert RowCells(width, x1, x, y1) == RowCells(width, x1, x - 1, y1) + {dest1 + x};
        assert RowCells(width, x1, x, y2) == RowCells(width, x1, x - 1, y2) + {dest2 + x};
        pixels[dest1 + x] := c;
        pixels[dest2 + x] := c;
        x := x + 1;
      }
    }

    /** Fills the rectangle from `(x1, y1)` to `(x2, y2)`, row by row.  There
        is no clipping: every cell written must be in the buffer. */
    method Bar(x1: int, y1: int, x2: int, y2: int, c: int)
      requires forall x, y :: x1 <= x <= x2 && y1 <= y <= y2 ==> InBuffer(width, pixels.Length, x, y)
      modifies pixels
      ensures pixels[..] == Paint(old(pixels[..]), RectCells(width, x1, y1, x2, y2), c)
    {
      var dest := y1 * width;
      var y := y1;
      while y <= y2
        invariant y1 <= y && (y <= y2 + 1 || y == y1)
        invariant dest == y * width
        invariant forall i :: 0 <= i < pixels.Length ==>
          pixels[i] == if i in RectCells(width, x1, y1, x2, y - 1) then c else old(pixels[i])
      {
        var x := x1;
        while x <= x2
          invariant x1 <= x && (x <= x2 + 1 || x == x1)
          invariant forall i :: 0 <= i < pixels.Length ==>
            pixels[i] == if i in RectCells(width, x1, y1, x2, y - 1) + RowCells(width, x1, x - 1, y) then c else old(pixels[i])
        {
          assert InBuffer(width, pixels.Length, x, y);
          assert RowCells(width, x1, x, y) == RowCells(width, x1, x - 1, y) + {dest + x};
          pixels[dest + x] := c;
          x := x + 1;
        }
        y, dest := y + 1, dest + width;
      }
    }

    /** Draws the segment from `(x1, y1)` to `(x2, y2)` clipped to the
        window: the clipped segment is rastered from its nearer endpoint,
        one pixel per step of the major axis, the far endpoint left out. */
    method Line(x1: int, y1: int, x2: int, y2: int, c: int)
      requires Valid()
      modifies pixels
      ensures pixels[..] == Paint(old(pixels[..]), PointCells(width, LinePoints(width, height, x1, y1, x2, y2)), c)
    {
      PaintNothing(pixels[..], c);
      var clipped := ClipSegment(width, height, x1, y1, x2, y2);
      if clipped == Rejected {
        return;
      }
      var cx1, cy1, cx2, cy2 := clipped.x1, clipped.y1, clipped.x2, clipped.y2;
      RasterShape(width, height, cx1, cy1, cx2, cy2);
      if XMajor(cx1, cy1, cx2, cy2) {
        RasterXMajor(cx1, cy1, cx2, cy2, c);
      } else {
        RasterYMajor(cx1, cy1, cx2, cy2, c);
      }
    }

    /** The x-major half of `Line`: the endpoints are ordered by x, and x
        advances by one pixel per step while y follows in fixed point. */
    method RasterXMajor(x1: int, y1: int, x2: int, y2: int, c: int)
      requires Valid() && InWindow(width, height, x1, y1) && InWindow(width, height, x2, y2)
      requires XMajor(x1, y1, x2, y2)
      modifies pixels
      ensures pixels[..] == Paint(old(pixels[..]), PointCells(width, Raster(x1, y1, x2, y2)), c)
    {
      ghost var pts := Raster(x1, y1, x2, y2);
      RasterShape(width, height, x1, y1, x2, y2);
      var sx, sy, ex, ey := x1, y1, x2, y2;
      if ex < sx {
        sx, ex := ex, sx;
        sy, ey := ey, sy;
      }
      var l := ex - sx;
      if l == 0 {
        PaintNothing(pixels[..], c);
        return;
      }
      var dy := Quot((ey - sy) * 8192, l);
      assert pts == seq(l, i => Point(sx + i, Minor(sy, dy, i)));
      StepX(sx, sy, dy, l, pts, c);
    }

    /** The loop of the x-major half of `Line`: step `i` plots the pixel in
        column `sx + i` and the row of the fixed-point accumulator. */
    method StepX(sx: int, sy: int, dy: int, l: int, ghost pts: seq<Point>, c: int)
      requires Valid() && |pts| == l
      requires forall i :: 0 <= i < l ==> pts[i] == Point(sx + i, Minor(sy, dy, i))
      requires forall i :: 0 <= i < l ==> InWindow(width, height, pts[i].x, pts[i].y)
      modifies pixels
      ensures pixels[..] == Paint(old(pixels[..]), PointCells(width, pts), c)
    {
      PaintNothing(pixels[..], c);
      var px, acc := sx, sy * 8192;
      for i := 0 to l
        invariant px == sx + i && acc == sy * 8192 + i * dy
        invariant pixels[..] == Paint(old(pixels[..]), PointCells(width, pts[..i]), c)
      {
        assert pts[i] == Point(px, Quot(acc, 8192));
        PlotStep(width, height, pts, i);
        PaintOne(old(pixels[..]), PointCells(width, pts[..i]), Index(width, px, Quot(acc, 8192)), c);
        pixels[px + Quot(acc, 8192) * width] := c;
        assert acc + dy == sy * 8192 + (i + 1) * dy;
        px, acc := px + 1, acc + dy;
      }
      assert pts[..l] == pts;
    }

    /** The y-major half of `Line`: the endpoints are ordered by y, and y
        advances by one pixel per step while x follows in fixed point. */
    method RasterYMajor(x1: int, y1: int, x2: int, y2: int, c: int)
      requires Valid() && InWindow(width, height, x1, y1) && InWindow(width, height, x2, y2)
      requires !XMajor(x1, y1, x2, y2)
      modifies pixels
      ensures pixels[..] == Paint(old(pixels[..]), PointCells(width, Raster(x1, y1, x2, y2)), c)
    {
      ghost var pts := Raster(x1, y1, x2, y2);
      RasterShape(width, height, x1, y1, x2, y2);
      var sx, sy, ex, ey := x1, y1, x2, y2;
      if ey < sy {
        sx, ex := ex, sx;
        sy, ey := ey, sy;
      }
      var l := ey - sy;  // positive: the y extent exceeds the x extent
      var dx := Quot((ex - sx) * 8192, l);
      assert pts == seq(l, i => Point(Minor(sx, dx, i), sy + i));
      StepY(sx, sy, dx, l, pts, c);
    }

    /** The loop of the y-major half of `Line`: step `i` plots the pixel in
        row `sy + i` and the column of the fixed-point accumulator. */
    method StepY(sx: int, sy: int, dx: int, l: int, ghost pts: seq<Point>, c: int)
      requires Valid() && |pts| == l
      requires forall i :: 0 <= i < l ==> pts[i] == Point(Minor(sx, dx, i), sy + i)
      requires forall i :: 0 <= i < l ==> InWindow(width, height, pts[i].x, pts[i].y)
      modifies pixels
      ensures pixels[..] == Paint(old(pixels[..]), PointCells(width, pts), c)
    {
      PaintNothing(pixels[..], c);
      var py, acc := sy, sx * 8192;
      for i := 0 to l
        invariant py == sy + i && acc == sx * 8192 + i * dx
        invariant pixels[..] == Paint(old(pixels[..]), PointCells(width, pts[..i]), c)
      {
        assert pts[i] == Point(Quot(acc, 8192), py);
        PlotStep(width, height, pts, i);
        PaintOne(old(pixels[..]), PointCells(width, pts[..i]), Index(width, Quot(acc, 8192), py), c);
        pixels[Quot(acc, 8192) + py * width] := c;
        assert acc + dx == sx * 8192 + (i + 1) * dx;
        py, acc := py + 1, acc + dx;
      }
      assert pts[..l] == pts;
    }

    /** Sets pixel `(x, y)` to `c` when it lies in the window; otherwise
        does nothing. */
    method Plot(x: int, y: int, c: int)
      requires Valid()
      modifies pixels
      ensures forall px, py :: InWindow(width, height, px, py) ==>
        Pixel(pixels[..], width, height, px, py) ==
          if px == x && py == y then c else Pixel(old(pixels[..]), width, height, px, py)
    {
      if x >= 0 && y >= 0 && x < width && y < height {
        PixelUpdate(pixels[..], width, height, x, y, c);
        pixels[x + y * width] := c;
      }
    }
  }
}
