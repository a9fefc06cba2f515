# Rasteriser core: `line` and `triangle`

This project models the two rasterisation routines of a small software
renderer, both in `main.cpp`:

- `line(p0, p1, image, color)` plots a segment between two integer points.
  It marks the segment steep when |dx| < |dy| and then transposes both
  endpoints. It swaps the endpoints so that `p0.x <= p1.x`, and walks every
  integer `x` from `p0.x` to `p1.x`. For each one it computes `y` by linear
  interpolation with a float parameter `t` and writes `(x, y)`, or `(y, x)`
  when steep.
- `triangle(t0, t1, t2, image, color)` is a flat-colour scanline fill. It
  returns early when all three vertices share a row. It sorts the vertices by
  y with three conditional swaps. For each row offset `i` in
  `[0, totalHeight)` it interpolates a point `A` on the long edge `t0 -> t2`
  and a point `B` on the short edge of the current half, orders them so that
  `A.x <= B.x`, and writes every column from `A.x` to `B.x` on row `t0.y + i`.

The image is modelled as the sequence of coordinates passed to `image.set`,
in call order. Every write uses the same colour, so colour is not modelled.
Each routine is a method that returns this sequence: `LineRaster.Line` and
`TriangleRaster.Fill`. Each method is proved equal to a specification
function, `LineRaster.LinePlot` and `TriangleRaster.TriangleFill`. The
properties are lemmas about those functions.

The float interpolation is modelled as exact rational arithmetic followed
by the truncation toward zero of C++'s float-to-`int` conversion:

- `Geometry.TruncDiv` is that truncation.
- `Geometry.EdgeX` is `from + (to - from) * (k / n)` for `Vec2i`, with the
  scaled offset truncated before the integer addition.
- `LineRaster.LineY` is `p0.y * (1 - t) + p1.y * t` with `t = (x - p0.x) / (p1.x - p0.x)`.
  The whole value is truncated once, as in `int y = …`.

Modules:

- `geometry.dfy` (`Geometry`): points, truncating division, edge interpolation.
- `line.dfy` (`LineRaster`): `line`.
- `triangle.dfy` (`TriangleRaster`): `triangle`.

When `p0 == p1`, `line` divides zero by zero. The float-to-`int` conversion
of the resulting NaN is undefined behaviour in C++. The model returns
`UndefinedZeroLength` for that input rather than inventing a pixel.

`line` interpolates with a float parameter `t`; it is not Bresenham's
error-term algorithm. `triangle` is a scanline fill between two interpolated
edge points; it has no depth buffer and no barycentric inside test.

## Model

| member | source | states |
|---|---|---|
| `Geometry.TruncDiv` | main.cpp:35 | The float-to-`int` conversion of an exact quotient `n / d`: it rounds toward zero, unlike Dafny's `/`. Its bounds (the quotient carries the sign of `n` and lies within one `d` of it) are stated by `Geometry.TruncDivBounds`; `Geometry.TruncDivStep` and `Geometry.TruncDivBetween` carry the properties used elsewhere. |
| `Geometry.EdgeX` | main.cpp:66-67 | An interpolated boundary x lies between the two edge endpoints' x. It equals the start point at parameter 0 and the end point at parameter 1. |
| `Geometry.TruncDivStep` | main.cpp:34-35 | Numerators at most one divisor apart truncate to quotients at most one apart, in the same order. This is the arithmetic behind the gap-free line. |
| `LineRaster.Normalize` | main.cpp:22-29 | After the steep transpose and the endpoint swap, the walk runs left to right. The steep flag is exactly \|dx\| < \|dy\|. Writing back the endpoints, transposed when steep, gives the original endpoints in one order or the other. The slope in the walking frame is at most one. Both walk ends share a column exactly when `p0 == p1`. |
| `LineRaster.FrameTwice` | main.cpp:23-24 | Transposing a point twice gives the point back: the `(y, x)` write-back of main.cpp:38-39 is the inverse of the steep transpose. |
| `LineRaster.NormalizeCorners` | main.cpp:22-29 | The walk's low and high corners, written back to the original frame, are the corners of the bounding box of `p0` and `p1`. |
| `LineRaster.LineY` | main.cpp:34-35 | The `y` of column `x`: `a.y * (b.x - x) + b.y * (x - a.x)` over `b.x - a.x`, truncated toward zero, which is `p0.y * (1 - t) + p1.y * t` with exact `t`. Its properties are `LineRaster.LineYEnds`, `LineRaster.LineYBetween` and `LineRaster.LineYStep`. |
| `LineRaster.LinePlot` | main.cpp:18-42 | The write sequence is undefined exactly when `p0 == p1`. Otherwise it holds max(\|dx\|, \|dy\|) + 1 writes, one per coordinate on the longer axis. |
| `LineRaster.Line` | main.cpp:18-43 | The imperative routine (transpose, swap, counting loop, transposed write-back) issues exactly the writes of `LinePlot`, and stops on the 0/0 case. |
| `LineRaster.LineMajorAxis` | main.cpp:22-32 | The k-th write has coordinate min + k on the longer axis: every coordinate of that axis between the endpoints is visited once, in increasing order. |
| `LineRaster.LineYEnds` | main.cpp:34-35 | `t = 0` gives the first endpoint's `y` and `t = 1` gives the last one's, with no truncation error. |
| `LineRaster.LineEndpoints` | main.cpp:32-35 | With `p0 != p1`, both original endpoints are written. |
| `LineRaster.LineYBetween` | main.cpp:34-35 | The interpolated `y` never leaves the range of the two endpoint `y`s. |
| `LineRaster.LineInBox` | main.cpp:22-41 | Every written pixel lies in the bounding box of `p0` and `p1`. |
| `LineRaster.LineReversible` | main.cpp:22-29 | `line(p0, p1)` and `line(p1, p0)` issue the same writes, in the same order. |
| `LineRaster.LineYStep` | main.cpp:34-35 | One step along the walk moves the interpolated `y` by zero or one, in the direction of the far endpoint. |
| `LineRaster.LineConnected` | main.cpp:32-41 | In the walking frame, consecutive writes advance one column and move monotonically by at most one row. |
| `LineRaster.LineNoGaps` | main.cpp:32-41 | Consecutive writes are distinct 8-neighbours in the image: the line has no gaps. |
| `TriangleRaster.SortByY` | main.cpp:51-53 | The three conditional swaps order the vertices by y and only permute them. The first vertex has the smallest y and the last the largest. The x range and flatness are unchanged. |
| `TriangleRaster.SortVertices` | main.cpp:50-53 | The in-place swaps compute `SortByY`. |
| `TriangleRaster.Height` | main.cpp:56 | `totalHeight` of sorted vertices spanning more than one row is at least 1, so `alpha`'s divisor is strictly positive. |
| `TriangleRaster.SortedTall` | main.cpp:48-56 | Past the early return, the sorted vertices span at least one row: `totalHeight >= 1`. |
| `TriangleRaster.SegmentHeight` | main.cpp:59-60 | On every row the loop visits, `segmentHeight` (the divisor of `beta`) is strictly positive, in either half. |
| `TriangleRaster.SecondHalf` | main.cpp:59 | Row offset `i` belongs to the upper half when it is past the middle vertex or the lower half is empty. |
| `TriangleRaster.BoundaryA` | main.cpp:66 | `A.x` lies between `t0.x` and `t2.x`, and equals `t0.x` on the first row. |
| `TriangleRaster.BoundaryB` | main.cpp:62-67 | `B.x` lies between the x of the current half's two vertices, and equals `t1.x` on the row of the middle vertex. |
| `TriangleRaster.RowSpan` | main.cpp:59-69 | After `swap(A, B)`, each row's column range is non-empty (`A.x <= B.x`) and lies within the triangle's x range. |
| `TriangleRaster.Spans` | main.cpp:58 | There is one column range per row offset `i` in `[0, totalHeight)`. |
| `TriangleRaster.RowBounds` | main.cpp:59-69 | The half choice, `alpha`, `beta`, the two interpolations and the swap compute the row's column range `RowSpan`. |
| `TriangleRaster.FillRow` | main.cpp:71-73 | The inner loop appends the writes `(lo, y) … (hi, y)` and nothing else. |
| `TriangleRaster.FillSorted` | main.cpp:56-74 | The row loop over sorted vertices issues the scanline writes of all `totalHeight` rows, row by row. |
| `TriangleRaster.Fill` | main.cpp:46-75 | The whole routine (early return, sort, rows) issues exactly the writes of `TriangleFill`. |
| `TriangleRaster.TriangleFill` | main.cpp:46-75 | The writes of `triangle`: none when flat, otherwise the runs of rows `0 .. totalHeight - 1` of the sorted vertices, in order. Its properties are `TriangleRaster.FlatWritesNothing`, `TriangleRaster.TriangleFillExact`, `TriangleRaster.TriangleRows`, `TriangleRaster.TriangleInBox`, `TriangleRaster.TriangleWritesOnce` and `TriangleRaster.TriangleOrderIndependent`. |
| `TriangleRaster.ScanMembership` | main.cpp:58-73 | A scanline fill writes a pixel if and only if the pixel's row is one of the scanned rows and its column lies in that row's inclusive range. |
| `TriangleRaster.ScanOrdered` | main.cpp:58-73 | A scanline fill writes in strictly increasing row-major order. |
| `TriangleRaster.FlatWritesNothing` | main.cpp:48 | When all three vertices share a row, nothing is written. |
| `TriangleRaster.TriangleFillExact` | main.cpp:58-73 | A pixel is written if and only if its row is `t0.y + i` for some `i` in `[0, totalHeight)` (sorted vertices) and its column lies between that row's boundary points inclusive. |
| `TriangleRaster.TriangleRows` | main.cpp:58-73 | Written rows lie in `[min y, max y)`, so the top vertex's row is never drawn. Every row in that range gets a non-empty run, and both of its end pixels are written. |
| `TriangleRaster.TriangleInBox` | main.cpp:46-73 | Every written pixel lies in the bounding box of the three vertices, excluding the top row. |
| `TriangleRaster.TriangleWritesOnce` | main.cpp:58-73 | Writes come in strictly increasing row-major order, so no pixel is written twice. |
| `TriangleRaster.RowSpanSwapped` | main.cpp:59-69 | Exchanging two sorted vertices that share a row only exchanges the roles of `A` and `B`, so each row keeps its column range. |
| `TriangleRaster.SortReordered` | main.cpp:51-53 | The sorts of two orderings of the same vertices agree, up to exchanging two vertices on one row. |
| `TriangleRaster.TriangleOrderIndependent` | main.cpp:46-75 | The writes do not depend on the order in which the three vertices are passed. |

## Left out

- `main` and everything it drives: OBJ loading through `Model`, the orthographic projection, normals and light intensity, and TGA output. This is file I/O and floating-point shading, outside the rasterisers.
- The global `model` pointer and the `width`/`height` constants are used only by the driver.
- Colours: every write of one call uses the caller's colour, so only coordinates are recorded.
- `image.set` bounds handling: `tgaimage.h` is not part of this model. Writes are recorded as issued, including any outside the image.
- `Vec2i` arithmetic: `geometry.h` is not part of this model. `Vec2i * float` is taken to truncate each scaled component toward zero before the integer addition. Only the x component of `A` and `B` is modelled, because `A.y` and `B.y` are never read.
- IEEE float rounding of `t`, `alpha`, `beta` and the blended `y` is not modelled: the model uses exact rational values throughout, so its pixels can differ from the program's even for small coordinates. For `triangle`, at large magnitudes the single-precision product `(t2 - t0) * alpha` can be off by more than one: for `triangle((0,0),(0,1),(134217740,2))` the program computes `A.x = 67108872` on row 1, the model `67108870`.
- LineRaster.LineYBetween, LineRaster.LineInBox, LineRaster.LineYStep, LineRaster.LineConnected, LineRaster.LineNoGaps: these hold for the exact-arithmetic `y`, not for the program as compiled. At main.cpp:35 `p0.y * (1. - t)` is evaluated in `double` but `p1.y * t` in `float`, and that rounding already breaks them on small inputs. For `line((0,3),(3,3))` the float product `3 * t` rounds up to exactly `1.0f` while `3 * (1. - t)` stays just below `2`, so the sum truncates to `2`: the program writes `(0,3), (1,2), (2,2), (3,3)`, two pixels outside the bounding box, where the model writes row 3 throughout. For `line((0,3),(3,0))` the program writes `(0,3), (1,1), (2,0), (3,0)`, a jump of two rows, where the model writes `(0,3), (1,2), (2,1), (3,0)`.
- 32-bit `int` is not modelled: coordinates are unbounded integers. Overflow of the differences `p0.x - p1.x`, `p0.y - p1.y` and `t2.y - t0.y`, and of the loop counters `x++` and `j++` when an end column is `INT_MAX`, is undefined behaviour in C++. For example, `line((2147483646,0),(2147483647,0))` never leaves its loop in practice, while the model issues two writes.
- `LineRaster.LinePlot`: for `p0 == p1` the program's behaviour is undefined (a NaN converted to `int`). The model reports `UndefinedZeroLength` instead of a write.
