# Turtle raster core in Dafny

A model of the integer drawing core of the Rust turtle program in
`src/main.rs`. The turtle owns a fixed 25 x 55 byte buffer, blank (`.`)
when it is constructed. Drawing a segment works in three steps:

1. `draw_field_line` rounds the endpoints.
2. It transposes a steep segment and orders the endpoints.
3. It walks the major axis with Bresenham's error term.

Each visited cell is handed to `plot_p`. `plot_p` shifts it by the centre
offset (12, 27) and writes `@` when the cell lies on the grid. It drops the
write silently otherwise. The free function `transform` adds `n / 1000` to the
hundreds digit and the tens digit to the units digit, and writes the smaller
sum before the larger. For 0 <= n <= 9999 these are the two digit-pair sums.
For larger magnitudes `n / 1000` keeps every digit above the hundreds
(123456 gives 1227).

Modules:

- `Field` (field.dfy): the buffer as an immutable `seq<seq<Byte>>`, the
  fresh buffer, the clipped write `Plot`, and the reference picture
  `Marked(f, s)` (f with the cells of the point set s marked).
- `Raster` (raster.dfy): the integer rasteriser.
  - `Normalize` is the transpose and endpoint swap.
  - `Step` is one loop iteration; `Run` is k iterations.
  - `Walk` and `Line` are the visited points in order; `Cells` is them as a set.
  - The lemmas prove the promised properties of the visited points: their
    count, both endpoints, the staircase shape, no repeats, the error range,
    and independence from the drawing direction.
- `Turtle` (turtle.dfy): `DrawFieldLine` runs the loop on the buffer and
  is proved to produce `Marked(f, Cells(a, b))`. It also covers sessions
  of several segments and worked examples.
- `Arith` (arith.dfy): the integer `Min` and `Max` used by the other modules.
- `Transform` (transform.dfy): `transform` with Rust's truncating `/` and
  `%` written out, its digit characterisation, range and symmetry.

The loop in `draw_field_line` plots logical y as the row and logical x as
the column in both branches. In the steep branch the coordinates are
transposed and `plot_p(x, y)` is called; in the other branch
`plot_p(y, x)` is called. So the logical point (x, y) always lands in
`field[y + 12][x + 27]`. Drawing (0, 0) to (5, 0) therefore marks row 12,
columns 27 through 32 and no other cell (`Turtle.HorizontalPicture`).

## Model

| member | source | states |
|---|---|---|
| Field.NewField | src/main.rs:115-120 | the fresh buffer is 25 x 55, every cell holds `.`, and no cell holds `@` |
| Field.Plot | src/main.rs:55-63 | the cell (r + 12, c + 27) becomes `@` when it is on the grid; every other cell keeps its byte; an off-grid write leaves the buffer unchanged |
| Field.PlotShows | src/main.rs:92-97 | plotting a logical point adds exactly that point to the set of points the buffer shows over its initial contents |
| Field.MarkedTwice | src/main.rs:58-62 | marking is cumulative: drawing s and then t gives the same buffer as drawing their union |
| Field.MarkedMonotone | src/main.rs:58-62 | a drawing never clears an `@`, leaves cells outside the drawn set unchanged, and writes no byte other than `@` |
| Raster.Normalize | src/main.rs:72-82 | the frame is steep exactly when the y-extent exceeds the x-extent; its endpoints are ordered with x1 <= x2; its major extent is max of the two extents; its minor extent does not exceed it; and undoing the transpose gives back the two endpoints in one order or the other |
| Raster.NormalizeSymmetric | src/main.rs:72-82 | swapping the two endpoints yields the same frame |
| Raster.StepCases | src/main.rs:98-102 | one iteration either keeps y and charges d_err to the error, or moves y by iy and refunds dx; with 0 <= d_err <= dx it keeps the error in range |
| Raster.RunErrInRange | src/main.rs:84-102 | at every iteration on a normalised frame, 0 <= err < dx (and err = 0 on a one-point line) |
| Raster.WalkReachesEnd | src/main.rs:89-103 | from any iteration state consistent with the error bookkeeping, the walk's last point is (x2, y1 + iy * d_err) |
| Raster.FrameWalkEnds | src/main.rs:84-103 | the walk has dx + 1 points, starting at (x1, y1) and ending at (x2, y2) |
| Raster.Line | src/main.rs:72-103 | a segment visits max(abs(dx), abs(dy)) + 1 points |
| Raster.LineEndpoints | src/main.rs:72-103 | the first and last visited points are the two endpoints, and both are among the visited cells |
| Raster.LineStaircase | src/main.rs:92-103 | consecutive visited points are distinct 8-neighbours, and every step heads from the first point towards the last in each coordinate |
| Raster.LineDistinct | src/main.rs:92-103 | no point is visited twice, so the number of cells equals the number of iterations |
| Raster.LineSymmetric | src/main.rs:72-82 | drawing a to b and drawing b to a visit the same points in the same order |
| Raster.CellsAreVisited | src/main.rs:92-103 | the cells of a line are exactly the points plotted by its dx + 1 iterations |
| Raster.LinePointIsPlotted | src/main.rs:92-102 | the k-th visited point is the point iteration k plots |
| Turtle.PlotWalk | src/main.rs:84-103 | the loop marks exactly the points its iterations plot and leaves every other cell as it was |
| Turtle.DrawFieldLine | src/main.rs:72-103 | drawing a segment from integer endpoints marks exactly the in-grid cells of its visited points on top of the old buffer |
| Turtle.RedrawIdempotent | src/main.rs:65-105 | drawing the same segment again, in either direction, changes nothing |
| Turtle.EndpointsMarked | src/main.rs:55-103 | after drawing, the cells of both endpoints hold `@` whenever they lie on the grid |
| Turtle.DrawAllMarksUnion | src/main.rs:65-105 | drawing segments one after another gives the old buffer with the union of their cells marked |
| Turtle.SessionPicture | src/main.rs:115-120 | from a fresh buffer, any sequence of drawn segments leaves only `.` and `@`, and a cell holds `@` exactly when its logical point lies on a drawn segment |
| Turtle.HorizontalExample | src/main.rs:72-103 | (0, 0) to (5, 0) visits (0, 0), (1, 0), ..., (5, 0) in order |
| Turtle.HorizontalCells | src/main.rs:72-103 | the cells of (0, 0) to (5, 0) are exactly the points (x, 0) with 0 <= x <= 5 |
| Turtle.HorizontalPicture | src/main.rs:55-63 | on the fresh buffer, drawing (0, 0) to (5, 0) marks exactly the cells of row 12 at columns 27 through 32, and no other cell of the grid |
| Turtle.DiagonalExample | src/main.rs:72-103 | (0, 0) to (3, 3) visits (0, 0), (1, 1), (2, 2), (3, 3) |
| Turtle.SteepExample | src/main.rs:72-103 | the steep segment (0, 0) to (1, 5) visits (0, 0), (0, 1), (0, 2), (1, 3), (1, 4), (1, 5) |
| Transform.TDiv | src/main.rs:7 | integer division rounds toward zero: the quotient times the divisor lies within one divisor of the dividend, on the dividend's side of zero |
| Transform.TRem | src/main.rs:7 | the remainder completes the truncating division, is smaller than the divisor, and has the dividend's sign |
| Transform.Transform | src/main.rs:6-10 | for every `i32` argument the result fits in an `i32` |
| Transform.NoOverflow | src/main.rs:6-10 | no intermediate value of `transform` overflows `i32`, for any `i32` argument |
| Transform.TransformDigits | src/main.rs:6-10 | for decimal digits d3 d2 d1 d0, the result is min(d3 + d2, d1 + d0) * 100 + max(d3 + d2, d1 + d0) |
| Transform.TransformRange | src/main.rs:6-10 | for 0 <= n <= 9999 the result lies in 0..=1818, and the smaller sum comes first |
| Transform.TransformSwapHalves | src/main.rs:6-10 | for 0 <= n <= 9999, exchanging the two-digit halves of n gives the same result |
| Transform.TransformNegate | src/main.rs:6-10 | because `/` and `%` truncate, transform(-n) is minus (larger sum * 100 + smaller sum) |
| Transform.TransformExamples | src/main.rs:6-10 | transform(1234) = 307, transform(-1234) = -703, transform(9999) = 1818, transform(5000) = 5, transform(123456) = 1227 |

## Left out

- The heading and position model (`dir_cmplx`, `position`, `forward`, `backward`, `left`, `right`) is left out. It is floating-point arithmetic on `f32` with `cos` and `sin`.
- The rounding of the `f32` endpoints is left out. This covers `round()` and the saturating `as i32` at the start of `draw_field_line` (src/main.rs:67-70). `Turtle.DrawFieldLine` takes the rounded integer endpoints as its inputs.
- The pen flag `tail_up` is left out. It only decides in `forward` whether `draw_field_line` is called at all.
- 32-bit overflow inside `draw_field_line` and `plot_p` is not modelled. The model's coordinates are unbounded integers. This concerns differences such as `y2 - y1`, the error updates and the centre offsets, which overflow only for coordinates near the `i32` limits.
- Field.Plot: the cast `x as usize` of a negative index is modelled as an out-of-grid index rather than as a 64-bit wrap-around. A negative `i32` becomes a value far above 25, so `get_mut` returns `None` either way.
- `print_info`, `print_field` and `main` are left out: they are console output and a fixed drawing script.
