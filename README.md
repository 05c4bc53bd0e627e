# Surface raster operations of the ray tracer

The ray tracer draws into a `Surface`: a `width` by `height` window of
32-bit colours stored row by row in one `int` array, pixel `(x, y)` at
index `x + y * width`. This project models the surface's drawing
operations and proves what each one does to the buffer:

- the `(w, h)` constructor;
- `Clear`, which fills the buffer;
- `CopyTo`, which copies one surface into another at an offset, clipped
  to both windows. `CopyTo(target)` is `CopyTo(target, 0, 0)`, through C#
  default arguments (Raytracer/surface.cs:64);
- `Box` and `Bar`, the outline and the filled rectangle, drawn without
  clipping;
- `Plot`, a single pixel, with a bounds check;
- `Line`, which first clips with Cohen–Sutherland region codes (`OUTCODE`)
  and then rasterises with a 13-bit fixed-point digital differential
  analyser (DDA).

The modules follow the structure of `Line` and its helpers:

- `CSharpInt` holds C#'s truncating integer division (`Quot`). Dafny's
  `/` is Euclidean, and the clip and DDA steps divide negative numbers.
- `Pixels` holds the buffer layout (`Index`, `InWindow`, `Pixel`) and the
  sets of cells each operation paints. It builds these sets in the order
  the source's loops visit them: `RowCells`, `ColumnCells`, `RectCells`,
  `BoxCells`, `PointCells`. `Paint(buf, cells, c)` is the buffer with those
  cells set to `c`. Membership lemmas translate each cell set back into
  window coordinates.
- `Clipping` holds `Outcode` (as a 4-bit vector, so `&` is the source's
  bitwise and), the clip loop as a recursive specification `Clip`, and the
  loop itself as `ClipSegment`. Termination of the loop is proved with a
  ranking: either the endpoints come to share an outside region, so the
  next round rejects, or the number of region bits falls.
- `Rasterizer` holds `Raster`, the sequence of points the DDA plots for an
  in-window segment, with its shape proved. `LinePoints` is the points
  `Line` plots for any segment: clipped, then rastered.
- `Surfaces` holds the class `Surface`. Its `pixels` is an `array<int>`,
  and every method is proved against the functions above.

In the y-major half of `Line` the source tests `l == 0` after the swap.
There the y extent strictly exceeds the x extent, so `l` is positive and
the test can never succeed; the model leaves it out.

## Model

| member | source | states |
|---|---|---|
| CSharpInt.Quot | Raytracer/surface.cs:160-175 | truncating division: the quotient times the divisor has the dividend's sign and falls short of it by less than one divisor; equal to `/` on non-negative operands |
| CSharpInt.QuotScaleBetween | Raytracer/surface.cs:160-175 | `a * num / den` with `num / den` in [0, 1] lies between 0 and `a`: the clip interpolation never leaves the segment's span |
| CSharpInt.SlopeBounds | Raytracer/surface.cs:210 | the fixed-point slope `d * 8192 / l` with `|d| <= l` has the sign of `d`, magnitude at most 8192, and `l` steps never overshoot `d * 8192` |
| Pixels.Index | Raytracer/surface.cs:246 | definition, no contract: the cell `x + y * width` that holds pixel `(x, y)`; its properties are in `IndexInBuffer`, `IndexInjective` and `IndexCovers` |
| Pixels.InWindow | Raytracer/surface.cs:246 | definition, no contract: `Plot`'s guard `0 <= x < width && 0 <= y < height`; its properties are in `IndexInBuffer`, `PixelUpdate` and `Outcode` |
| Pixels.RowCells | Raytracer/surface.cs:113-128 | definition, no contract: the cells of one row from column `xa` to `xb`, as the inner loop of `Bar` and the second loop of `Box` write them; its properties are in `RowCellsMember` |
| Pixels.ColumnCells | Raytracer/surface.cs:106-111 | definition, no contract: the cells of one column from row `ya` to `yb`, as the first loop of `Box` writes them; its properties are in `ColumnCellsMember` |
| Pixels.RectCells | Raytracer/surface.cs:123-129 | definition, no contract: the cells `Bar`'s two loops write, row by row; its properties are in `RectCellsMember` and `BarPixel` |
| Pixels.BoxCells | Raytracer/surface.cs:104-120 | definition, no contract: the cells `Box`'s two loops write, two columns and two rows; its properties are in `BoxCellsMember` and `BoxPixel` |
| Pixels.PointCells | Raytracer/surface.cs:212-216 | definition, no contract: the cells of a sequence of plotted points, as the line-drawing loops at lines 214 and 237 write them; its properties are in `PointCellsMember` and `PointsPixel` |
| Pixels.IndexInBuffer | Raytracer/surface.cs:23-28 | every window pixel's index `x + y * width` lies inside the `w * h` buffer |
| Pixels.IndexInjective | Raytracer/surface.cs:246 | two pixels with columns in the window share an index only if they are the same pixel |
| Pixels.IndexCovers | Raytracer/surface.cs:27 | every cell of the buffer is the cell of exactly one window pixel: `(i % w, i / w)` is in the window with index `i`, and no other window pixel has index `i` |
| Pixels.SamePixels | Raytracer/surface.cs:27 | two buffers that agree on every window pixel are equal, so a pixel-by-pixel postcondition fixes the whole buffer |
| Pixels.PixelUpdate | Raytracer/surface.cs:246 | writing the cell of `(px, py)` changes that pixel and no other window pixel |
| Pixels.RowCellsMember | Raytracer/surface.cs:127-128 | a window pixel is among the cells of a row run iff it is on that row between the two columns |
| Pixels.ColumnCellsMember | Raytracer/surface.cs:107-111 | a window pixel is among the cells of a column run iff it is in that column between the two rows |
| Pixels.RectCellsMember | Raytracer/surface.cs:123-129 | a window pixel is among the cells `Bar`'s loops visit iff it lies in the inclusive rectangle |
| Pixels.BoxCellsMember | Raytracer/surface.cs:104-120 | a window pixel is among the cells `Box`'s loops visit iff it lies on one of the four sides |
| Pixels.PointCellsMember | Raytracer/surface.cs:212-216 | a cell is among the cells of a point sequence iff it is the index of one of its points |
| Pixels.PaintedPixel | Raytracer/surface.cs:128 | after painting, a window pixel has colour `c` iff its cell was painted, and otherwise keeps its colour |
| Pixels.BarPixel | Raytracer/surface.cs:123-129 | after `Bar` on a rectangle within the window's columns, exactly the rectangle's pixels have colour `c` and all others keep theirs |
| Pixels.BoxPixel | Raytracer/surface.cs:104-120 | after `Box` with both columns in the window, exactly the pixels on the four sides have colour `c` and all others keep theirs |
| Pixels.PointsPixel | Raytracer/surface.cs:195-240 | painting window points: exactly the pixels at those points have colour `c` and all others keep theirs |
| Clipping.Outcode | Raytracer/surface.cs:132-136 | 0 exactly inside the window; bit 1 left, bit 2 right, bit 4 above, bit 8 below; never both 1 and 2 or both 4 and 8, so at most 10 |
| Clipping.Pending | Raytracer/surface.cs:145-150 | definition, no contract: the clip loop goes on, neither `c0 == 0 && c1 == 0` nor `(c0 & c1) > 0`; its properties are in `ClipDivisorsNonZero` and `ClipStepProgress` |
| Clipping.Chosen | Raytracer/surface.cs:157 | definition, no contract: the code of the first endpoint if it is outside, else the second's; its properties are in `ClipDivisorsNonZero` and `EdgePointCode` |
| Clipping.EdgePoint | Raytracer/surface.cs:156-177 | definition, no contract: the point a clip round moves the chosen endpoint to; its properties are in `EdgePointBetween`, `EdgePointOnLine` and `EdgePointCode` |
| Clipping.ClipStep | Raytracer/surface.cs:179-190 | definition, no contract: one clip round, replacing the chosen endpoint by its edge point; its properties are in `ClipStepProgress` |
| Clipping.ClipDivisorsNonZero | Raytracer/surface.cs:156-177 | in a clip round the chosen code is non-zero, and the divisor of the branch taken (`y2 - y1` or `x2 - x1`) is non-zero |
| Clipping.EdgePointBetween | Raytracer/surface.cs:156-177 | the point a clip round computes lies in the bounding box of the two endpoints |
| Clipping.EdgePointOnLine | Raytracer/surface.cs:160-175 | the point a clip round computes lies on the line through the two endpoints up to one truncated division: on a horizontal edge the cross product of its offset with the segment is smaller than `|y2 - y1|`, on a vertical edge smaller than `|x2 - x1|` |
| Clipping.EdgePointCode | Raytracer/surface.cs:156-183 | the new point's region bits are bits the endpoints already had, and it has left the region the round clipped against |
| Clipping.ClipStepProgress | Raytracer/surface.cs:154-190 | a clip round keeps both endpoints in the segment's bounding box, and either makes them share an outside region or lowers the number of region bits |
| Clipping.Clip | Raytracer/surface.cs:141-193 | accepted endpoints lie in the window and in the original bounding box; a segment inside the window is accepted unchanged; endpoints sharing an outside region are rejected |
| Clipping.ClipSegment | Raytracer/surface.cs:141-193 | the clip loop terminates and yields exactly `Clip` of the segment |
| Rasterizer.Minor | Raytracer/surface.cs:210-239 | definition, no contract: the minor coordinate after `i` steps, the accumulator `start * 8192 + i * slope` divided by 8192 with truncation; its properties are in `StepsBetween`, `MinorBetween` and `MinorAdjacent` |
| Rasterizer.Slope | Raytracer/surface.cs:210-233 | definition, no contract: the fixed-point slope `(to - from) * 8192 / l`; its properties are in `CSharpInt.SlopeBounds` |
| Rasterizer.Raster | Raytracer/surface.cs:195-240 | definition, no contract: the points the DDA plots for a segment, x-major or y-major after the swap; its properties are in `RasterShape` and `LinePoints` |
| Rasterizer.XMajor | Raytracer/surface.cs:195 | definition, no contract: the test `Math.Abs(x2 - x1) >= Math.Abs(y2 - y1)` that picks the x-major half; its properties are in `RasterShape` |
| Rasterizer.Near | Raytracer/surface.cs:195-228 | definition, no contract: the first endpoint after the swap that orders the segment along its major axis; its properties are in `RasterShape` |
| Rasterizer.Far | Raytracer/surface.cs:195-228 | definition, no contract: the second endpoint after that swap; its properties are in `RasterShape` |
| Rasterizer.StepsBetween | Raytracer/surface.cs:210-216 | after `i` of `l` steps the accumulator has moved by between 0 and the whole minor extent |
| Rasterizer.MinorBetween | Raytracer/surface.cs:210-216 | at every step the accumulator is non-negative and the minor coordinate lies between the endpoints' |
| Rasterizer.MinorAdjacent | Raytracer/surface.cs:212-216 | with a slope of at most 8192, successive minor coordinates differ by at most one |
| Rasterizer.RunShape | Raytracer/surface.cs:210-216 | a run of minor coordinates starts at the near endpoint's, stays in the window and moves by at most one per step |
| Rasterizer.RasterShape | Raytracer/surface.cs:195-240 | for an in-window segment: exactly one point per step of the major extent, starting at the near endpoint, all in the window, never the far endpoint, major coordinate +1 and minor at most ±1 per step |
| Rasterizer.XRasterShape | Raytracer/surface.cs:195-217 | the same for an x-major segment, after the swap that orders it by x |
| Rasterizer.YRasterShape | Raytracer/surface.cs:218-240 | the same for a y-major segment, after the swap that orders it by y |
| Rasterizer.LinePoints | Raytracer/surface.cs:139-241 | every plotted point lies in the window; nothing is plotted when the endpoints share an outside region; an in-window segment is rastered as it is |
| Surfaces.PlotStep | Raytracer/surface.cs:214 | plotting point `i` hits a cell inside the buffer and extends the painted cells from `pts[..i]` to `pts[..i + 1]` |
| Surfaces.Surface.constructor | Raytracer/surface.cs:23-28 | a fresh buffer of `w * h` cells, all zero, with `width = w` and `height = h` |
| Surfaces.Surface.Clear | Raytracer/surface.cs:58-61 | every cell of the buffer equals `c` |
| Surfaces.Surface.CopyTo | Raytracer/surface.cs:64-101 | for any offset, on unbounded integers: each target pixel covered by the shifted source takes the covering source pixel's colour, all other target pixels keep theirs, and the source is unchanged |
| Surfaces.Surface.CopyBlock | Raytracer/surface.cs:90-100 | the copy loops set exactly the clipped block to the shifted source's pixels |
| Surfaces.Surface.Box | Raytracer/surface.cs:104-120 | the buffer is the old buffer with the cells of the two columns and two rows painted `c` |
| Surfaces.Surface.BoxColumns | Raytracer/surface.cs:106-111 | the first loop paints exactly columns `x1` and `x2` over rows `y1..y2` |
| Surfaces.Surface.BoxRows | Raytracer/surface.cs:113-119 | the second loop paints exactly rows `y1` and `y2` over columns `x1..x2` |
| Surfaces.Surface.Bar | Raytracer/surface.cs:123-129 | the buffer is the old buffer with the cells of the inclusive rectangle painted `c` |
| Surfaces.Surface.Line | Raytracer/surface.cs:139-241 | the buffer is the old buffer with exactly the cells of `LinePoints` painted `c` |
| Surfaces.Surface.RasterXMajor | Raytracer/surface.cs:195-217 | the x-major half paints exactly the cells of `Raster` of the clipped segment, and nothing when its length is 0 |
| Surfaces.Surface.StepX | Raytracer/surface.cs:210-216 | the x-major loop paints exactly the cells of the points it steps through |
| Surfaces.Surface.RasterYMajor | Raytracer/surface.cs:218-240 | the y-major half paints exactly the cells of `Raster` of the clipped segment |
| Surfaces.Surface.StepY | Raytracer/surface.cs:233-239 | the y-major loop paints exactly the cells of the points it steps through |
| Surfaces.Surface.Plot | Raytracer/surface.cs:244-247 | an in-window pixel is set to `c` and no other pixel changes; outside the window nothing changes |

## Left out

- The file constructor `Surface(string)` (Raytracer/surface.cs:31-41) is left out. It loads a bitmap from disk through `System.Drawing` and `Marshal.Copy`.
- `GenTexture` and class `Sprite` are left out. They are OpenGL calls, and `Sprite` computes floating-point quad coordinates.
- `Print` and its font table are left out. They load a font image from disk and keep static font state.
- Raytracer/template.cs and Raytracer/MyApplication.cs are not part of this model: window, timing and keyboard plumbing around foreign calls.
- The ray-tracing engine itself is not part of this model: camera, intersection, shading and scenes.
- Arithmetic is on unbounded integers. C# `int` arithmetic wraps silently, and these places could overflow:
  - the clip interpolation products such as `(x2 - x1) * (ymax - y1)` (Raytracer/surface.cs:160-175), for segments tens of thousands of pixels long;
  - the accumulators `y1 * 8192` / `x1 * 8192` (Raytracer/surface.cs:210, 233), once a coordinate reaches 262144 (2^31 / 8192);
  - `w * h` in the constructor (Raytracer/surface.cs:27);
  - `srcwidth + x` and `srcheight + y` in `CopyTo` (Raytracer/surface.cs:72, 74), and `x + dstwidth * y` (Raytracer/surface.cs:92), for offsets near the ends of the `int` range;
  - `y1 * width` and `y2 * width` in `Box` and `Bar` (Raytracer/surface.cs:106, 113-114, 125), for rows far outside the window.

  The model does not reproduce those wrap-arounds.
- Surfaces.Surface.CopyTo: its postcondition holds for every offset on unbounded integers. In C#, when `srcwidth + x` or `srcheight + y` wraps, the clip at Raytracer/surface.cs:72-74 is skipped and the write at line 95 throws `IndexOutOfRangeException`. The model writes nothing out of bounds there.
- Surfaces.Surface.Bar and Surfaces.Surface.Box: when `y1 * width` wraps, C# can land back inside the buffer and paint cells the model's precondition rules out. For example, `Bar(0, 65536, 0, 65536, c)` on a 65536 by 1 surface paints cell 0.
- Surfaces.Surface.CopyTo: requires the target's buffer to differ from this surface's. A copy of a surface onto itself, where later reads see earlier writes, is not modelled.
- Surfaces.Surface.constructor: requires `w >= 0` and `h >= 0`. The source accepts any pair whose product is a valid array length, such as two negative sizes.
- Surfaces.Surface.Bar: requires every cell it writes to lie in the buffer. The source has no clipping and throws `IndexOutOfRangeException` part-way through, after painting earlier cells. That exception path is not modelled.
- Surfaces.Surface.Box: requires every cell it writes to lie in the buffer, for the same reason as `Bar`.
- Pixels.BarPixel: the pixel-by-pixel reading assumes the rectangle's columns lie in the window. A rectangle with columns outside wraps into neighbouring rows, as the source's index arithmetic does. The cell-set postcondition of `Bar` covers that case too.
- Pixels.BoxPixel: the pixel-by-pixel reading assumes both columns lie in the window, for the same reason.
- Clipping.Clip: each round's new point is within one truncated division of the line through the current endpoints (`EdgePointOnLine`). Over several rounds these errors can add up, and the distance of the accepted endpoints from the original line is not bounded.
- Rasterizer.RasterShape: states the raster's length, start point, connectivity, window containment and the omission of the far endpoint. It does not bound how far a plotted point lies from the ideal line.
- The `width`, `height` and `pixels` fields are public in C#. Reassigning them from outside between calls is not modelled. `Clear`, `CopyTo`, `Line` and `Plot` require the buffer to hold `width * height` cells. `Box`, `BoxColumns`, `BoxRows` and `Bar` require only that every cell they write lies in the buffer.
