/** The pixel buffer of a surface: `width * height` colours stored row by row,
    pixel `(x, y)` at index `x + y * width`.  The drawing operations are
    specified by the SET of indices they paint; this module defines those sets
    (built in the order the source's loops visit them) and proves what they
    mean in window coordinates. */
module Pixels {
  import opened CSharpInt

  datatype Point = Point(x: int, y: int)

  /** Where the source stores pixel `(x, y)`: `x + y * width`. */
  function Index(w: int, x: int, y: int): int
  {
    x + y * w
  }

  /** `(x, y)` lies in the `w` by `h` window. */
  predicate InWindow(w: int, h: int, x: int, y: int)
  {
    0 <= x < w && 0 <= y < h
  }

  /** The index of `(x, y)` is a valid index of an `n`-cell buffer. */
  predicate InBuffer(w: int, n: int, x: int, y: int)
  {
    0 <= Index(w, x, y) < n
  }

  /** `buf` with every cell of `cells` set to `c`. */
  function Paint(buf: seq<int>, cells: set<int>, c: int): seq<int>
  {
    seq(|buf|, i requires 0 <= i < |buf| => if i in cells then c else buf[i])
  }

  /** The colour of window pixel `(x, y)` in a buffer of `w * h` cells. */
  function Pixel(buf: seq<int>, w: int, h: int, x: int, y: int): int
    requires |buf| == w * h && InWindow(w, h, x, y)
  {
    IndexInBuffer(w, h, x, y);
    buf[Index(w, x, y)]
  }

  // ----- cell sets, in the order the loops of the source visit them -----

  /** Cells `(xa, y) .. (xb, y)` of one row (a horizontal run). */
  function RowCells(w: int, xa: int, xb: int, y: int): set<int>
    decreases xb - xa
  {
    if xb < xa then {} else RowCells(w, xa, xb - 1, y) + {Index(w, xb, y)}
  }

  /** Cells `(x, ya) .. (x, yb)` of one column (a vertical run). */
  function ColumnCells(w: int, x: int, ya: int, yb: int): set<int>
    decreases yb - ya
  {
    if yb < ya then {} else ColumnCells(w, x, ya, yb - 1) + {Index(w, x, yb)}
  }

  /** Cells of the rows `y1 .. y2`, each from column `x1` to column `x2`. */
  function RectCells(w: int, x1: int, y1: int, x2: int, y2: int): set<int>
    decreases y2 - y1
  {
    if y2 < y1 then {} else RectCells(w, x1, y1, x2, y2 - 1) + RowCells(w, x1, x2, y2)
  }

  /** Cells of the outline drawn by `Box`: columns `x1` and `x2` over the rows
      `y1 .. y2`, and rows `y1` and `y2` over the columns `x1 .. x2`. */
  function BoxCells(w: int, x1: int, y1: int, x2: int, y2: int): set<int>
  {
    ColumnCells(w, x1, y1, y2) + ColumnCells(w, x2, y1, y2)
    + RowCells(w, x1, x2, y1) + RowCells(w, x1, x2, y2)
  }

  /** The cells of a sequence of points, in order. */
  function PointCells(w: int, pts: seq<Point>): set<int>
  {
    if pts == [] then {} else PointCells(w, pts[..|pts| - 1]) + {Index(w, pts[|pts| - 1].x, pts[|pts| - 1].y)}
  }

  // ----- the buffer layout -----

  /** Every pixel of the window has its own cell inside the buffer. */
  lemma IndexInBuffer(w: int, h: int, x: int, y: int)
    requires InWindow(w, h, x, y)
    ensures InBuffer(w, w * h, x, y)
  {
    assert y * w <= (h - 1) * w by { MulMonotone(w, y, h - 1); }
  }

  /** Distinct pixels of a row of width `w` never share a cell. */
  lemma IndexInjective(w: int, x: int, y: int, x': int, y': int)
    requires 0 <= x < w && 0 <= x' < w
    ensures Index(w, x, y) == Index(w, x', y') <==> x == x' && y == y'
  {
    if y < y' {
      MulMonotone(w, y + 1, y');
    } else if y' < y {
      MulMonotone(w, y' + 1, y);
    }
  }

  /** Every cell of a `w * h` buffer is the cell of exactly one window pixel,
      so a statement about all window pixels is a statement about the whole
      buffer. */
  lemma IndexCovers(w: int, h: int, i: int)
    requires 0 <= w && 0 <= h && 0 <= i < w * h
    ensures w > 0 && InWindow(w, h, i % w, i / w) && Index(w, i % w, i / w) == i
    ensures forall x, y :: InWindow(w, h, x, y) && Index(w, x, y) == i ==> x == i % w && y == i / w
  {
    assert i / w < h by {
      if i / w >= h {
        MulMonotone(w, h, i / w);
      }
    }
    forall x, y | InWindow(w, h, x, y) && Index(w, x, y) == i
      ensures x == i % w && y == i / w
    {
      IndexInjective(w, x, y, i % w, i / w);
    }
  }

  /** Writing the cell of pixel `(px, py)` changes that pixel and no other. */
  lemma PixelUpdate(buf: seq<int>, w: int, h: int, px: int, py: int, v: int)
    requires |buf| == w * h && InWindow(w, h, px, py)
    ensures 0 <= Index(w, px, py) < |buf|
    ensures forall x, y :: InWindow(w, h, x, y) ==>
      Pixel(buf[Index(w, px, py) := v], w, h, x, y) == if x == px && y == py then v else Pixel(buf, w, h, x, y)
  {
    IndexInBuffer(w, h, px, py);
    var after := buf[Index(w, px, py) := v];
    assert |after| == w * h;
    forall x, y | InWindow(w, h, x, y)
      ensures Pixel(after, w, h, x, y) == if x == px && y == py then v else Pixel(buf, w, h, x, y)
    {
      IndexInBuffer(w, h, x, y);
      IndexInjective(w, x, y, px, py);
    }
  }

  /** The cell below a pixel is one row, `w` cells, further on. */
  lemma IndexNextRow(w: int, x: int, y: int)
    ensures Index(w, x, y + 1) == Index(w, x, y) + w
  {
    assert (y + 1) * w == y * w + w;
  }

  // ----- what the cell sets mean for window pixels -----

  lemma {:induction false} RowCellsMember(w: int, xa: int, xb: int, y: int, px: int, py: int)
    requires 0 <= px < w && 0 <= xa && xb < w
    ensures Index(w, px, py) in RowCells(w, xa, xb, y) <==> py == y && xa <= px <= xb
    decreases xb - xa
  {
    if xa <= xb {
      RowCellsMember(w, xa, xb - 1, y, px, py);
      IndexInjective(w, px, py, xb, y);
    }
  }

  lemma {:induction false} ColumnCellsMember(w: int, x: int, ya: int, yb: int, px: int, py: int)
    requires 0 <= px < w && 0 <= x < w
    ensures Index(w, px, py) in ColumnCells(w, x, ya, yb) <==> px == x && ya <= py <= yb
    decreases yb - ya
  {
    if ya <= yb {
      ColumnCellsMember(w, x, ya, yb - 1, px, py);
      IndexInjective(w, px, py, x, yb);
    }
  }

  /** The pixels `Bar` paints are exactly those of the rectangle. */
  lemma {:induction false} RectCellsMember(w: int, x1: int, y1: int, x2: int, y2: int, px: int, py: int)
    requires 0 <= px < w && 0 <= x1 && x2 < w
    ensures Index(w, px, py) in RectCells(w, x1, y1, x2, y2) <==> x1 <= px <= x2 && y1 <= py <= y2
    decreases y2 - y1
  {
    if y1 <= y2 {
      RectCellsMember(w, x1, y1, x2, y2 - 1, px, py);
      RowCellsMember(w, x1, x2, y2, px, py);
    }
  }

  /** The pixels `Box` paints are exactly those on its four sides. */
  lemma BoxCellsMember(w: int, x1: int, y1: int, x2: int, y2: int, px: int, py: int)
    requires 0 <= px < w && 0 <= x1 < w && 0 <= x2 < w
    ensures Index(w, px, py) in BoxCells(w, x1, y1, x2, y2)
        <==> || ((px == x1 || px == x2) && y1 <= py <= y2)
             || ((py == y1 || py == y2) && x1 <= px <= x2)
  {
    ColumnCellsMember(w, x1, y1, y2, px, py);
    ColumnCellsMember(w, x2, y1, y2, px, py);
    RowCellsMember(w, x1, x2, y1, px, py);
    RowCellsMember(w, x1, x2, y2, px, py);
  }

  /** A point's cell belongs to the cells of any sequence holding the point,
      and every such cell comes from a point of the sequence. */
  lemma {:induction false} PointCellsMember(w: int, pts: seq<Point>, i: int)
    ensures i in PointCells(w, pts) <==> exists k :: 0 <= k < |pts| && i == Index(w, pts[k].x, pts[k].y)
  {
    if pts != [] {
      var init := pts[..|pts| - 1];
      PointCellsMember(w, init, i);
      if i in PointCells(w, init) {
        var k :| 0 <= k < |init| && i == Index(w, init[k].x, init[k].y);
        assert pts[k] == init[k];
      }
      if exists k :: 0 <= k < |pts| && i == Index(w, pts[k].x, pts[k].y) {
        var k :| 0 <= k < |pts| && i == Index(w, pts[k].x, pts[k].y);
        if k < |pts| - 1 {
          assert init[k] == pts[k];
        }
      }
    }
  }

  // ----- painting one cell at a time -----

  lemma PaintNothing(buf: seq<int>, c: int)
    ensures Paint(buf, {}, c) == buf
  {
  }

  lemma PaintOne(buf: seq<int>, cells: set<int>, k: int, c: int)
    requires 0 <= k < |buf|
    ensures Paint(buf, cells, c)[k := c] == Paint(buf, cells + {k}, c)
  {
  }

  // ----- what painting does to window pixels -----

  /** Two buffers of a window that agree on every window pixel are equal:
      stating an operation's effect pixel by pixel states all of it. */
  lemma SamePixels(a: seq<int>, b: seq<int>, w: int, h: int)
    requires 0 <= w && 0 <= h && |a| == w * h && |b| == w * h
    requires forall x, y :: InWindow(w, h, x, y) ==> Pixel(a, w, h, x, y) == Pixel(b, w, h, x, y)
    ensures a == b
  {
    forall i | 0 <= i < |a|
      ensures a[i] == b[i]
    {
      IndexCovers(w, h, i);
      assert Pixel(a, w, h, i % w, i / w) == Pixel(b, w, h, i % w, i / w);
    }
  }

  /** A painted window pixel has colour `c` when its cell is painted and
      keeps its colour otherwise. */
  lemma PaintedPixel(buf: seq<int>, w: int, h: int, cells: set<int>, c: int, px: int, py: int)
    requires |buf| == w * h && InWindow(w, h, px, py)
    ensures Pixel(Paint(buf, cells, c), w, h, px, py)
         == if Index(w, px, py) in cells then c else Pixel(buf, w, h, px, py)
  {
    IndexInBuffer(w, h, px, py);
  }

  /** `Bar` on a rectangle within the window's columns: exactly the pixels
      of the rectangle take colour `c`, every other pixel keeps its colour. */
  lemma BarPixel(buf: seq<int>, w: int, h: int, x1: int, y1: int, x2: int, y2: int, c: int, px: int, py: int)
    requires |buf| == w * h && 0 <= x1 && x2 < w && InWindow(w, h, px, py)
    ensures Pixel(Paint(buf, RectCells(w, x1, y1, x2, y2), c), w, h, px, py)
         == if x1 <= px <= x2 && y1 <= py <= y2 then c else Pixel(buf, w, h, px, py)
  {
    PaintedPixel(buf, w, h, RectCells(w, x1, y1, x2, y2), c, px, py);
    RectCellsMember(w, x1, y1, x2, y2, px, py);
  }

  /** `Box` with both columns in the window: exactly the pixels on the four
      sides take colour `c`, every other pixel keeps its colour. */
  lemma BoxPixel(buf: seq<int>, w: int, h: int, x1: int, y1: int, x2: int, y2: int, c: int, px: int, py: int)
    requires |buf| == w * h && 0 <= x1 < w && 0 <= x2 < w && InWindow(w, h, px, py)
    ensures Pixel(Paint(buf, BoxCells(w, x1, y1, x2, y2), c), w, h, px, py)
         == if || ((px == x1 || px == x2) && y1 <= py <= y2)
               || ((py == y1 || py == y2) && x1 <= px <= x2)
            then c else Pixel(buf, w, h, px, py)
  {
    PaintedPixel(buf, w, h, BoxCells(w, x1, y1, x2, y2), c, px, py);
    BoxCellsMember(w, x1, y1, x2, y2, px, py);
  }

  /** Painting a sequence of window points: exactly the pixels at those
      points take colour `c`, every other pixel keeps its colour. */
  lemma PointsPixel(buf: seq<int>, w: int, h: int, pts: seq<Point>, c: int, px: int, py: int)
    requires |buf| == w * h && InWindow(w, h, px, py)
    requires forall k :: 0 <= k < |pts| ==> InWindow(w, h, pts[k].x, pts[k].y)
    ensures Pixel(Paint(buf, PointCells(w, pts), c), w, h, px, py)
         == if Point(px, py) in pts then c else Pixel(buf, w, h, px, py)
  {
    PaintedPixel(buf, w, h, PointCells(w, pts), c, px, py);
    PointCellsMember(w, pts, Index(w, px, py));
    if Index(w, px, py) in PointCells(w, pts) {
      var k :| 0 <= k < |pts| && Index(w, px, py) == Index(w, pts[k].x, pts[k].y);
      IndexInjective(w, px, py, pts[k].x, pts[k].y);
    }
  }
}
