/**
  The turtle's raster buffer: a fixed 25 x 55 grid of bytes whose logical
  origin sits at the centre. A logical point (x, y) is shown in row y + 12,
  column x + 27; writes that land outside the grid are dropped silently.
 */
module Field {

  /** An unsigned byte, the element type of the buffer. */
  type Byte = b: int | 0 <= b < 256

  /** The byte of an empty cell, `b'.'`. */
  const Blank: Byte := 46
  /** The byte of a marked cell, `b'@'`. */
  const Mark: Byte := 64

  /** Number of rows (the outer index) and of columns (the inner index). */
  const Rows: nat := 25
  const Cols: nat := 55

  /** Offsets that move the logical origin to the centre of the grid. */
  const CenterRow: int := Rows / 2
  const CenterCol: int := Cols / 2

  /** A logical point, origin at the centre of the grid. */
  datatype Point = Point(x: int, y: int)

  type Grid = seq<seq<Byte>>

  /** The buffer has the fixed dimensions of the `[[u8; 55]; 25]` field. */
  predicate Shaped(f: Grid) {
    |f| == Rows && forall i :: 0 <= i < |f| ==> |f[i]| == Cols
  }

  predicate InBounds(i: int, j: int) {
    0 <= i < Rows && 0 <= j < Cols
  }

  /** Every cell holds one of the two bytes the program ever writes. */
  ghost predicate OnlyGlyphs(f: Grid)
    requires Shaped(f)
  {
    forall i, j :: InBounds(i, j) ==> f[i][j] == Blank || f[i][j] == Mark
  }

  /** The logical point whose cell is row i, column j. */
  function PointAt(i: int, j: int): Point {
    Point(j - CenterCol, i - CenterRow)
  }

  /** The freshly constructed buffer: every cell blank. */
  function NewField(): (f: Grid)
    ensures Shaped(f)
    ensures OnlyGlyphs(f)
    ensures forall i, j :: InBounds(i, j) ==> f[i][j] != Mark
  {
    seq(Rows, _ => seq(Cols, _ => Blank))
  }

  /**
    Clipped cell write: offset (r, c) by the centre and mark that cell when
    it lies inside the grid; otherwise leave the buffer as it is.
   */
  function Plot(f: Grid, r: int, c: int): (g: Grid)
    requires Shaped(f)
    ensures Shaped(g)
    ensures InBounds(r + CenterRow, c + CenterCol) ==> g[r + CenterRow][c + CenterCol] == Mark
    ensures !InBounds(r + CenterRow, c + CenterCol) ==> g == f
    ensures forall i, j :: InBounds(i, j) && (i, j) != (r + CenterRow, c + CenterCol) ==> g[i][j] == f[i][j]
  {
    var i, j := r + CenterRow, c + CenterCol;
    if InBounds(i, j) then
      var row: seq<Byte> := f[i][j := Mark];
      f[i := row]
    else f
  }

  /** Reference picture: f with the cell of every in-range point of s marked. */
  function Marked(f: Grid, s: set<Point>): (g: Grid)
    requires Shaped(f)
    ensures Shaped(g)
  {
    seq(Rows, i requires 0 <= i < Rows =>
      seq(Cols, j requires 0 <= j < Cols =>
        if PointAt(i, j) in s then Mark else f[i][j]))
  }

  /** g is f with exactly the in-range cells of the points of s marked, stated cell by cell. */
  ghost predicate Shows(g: Grid, f: Grid, s: set<Point>)
    requires Shaped(f)
  {
    && Shaped(g)
    && forall i, j :: InBounds(i, j) ==> g[i][j] == if PointAt(i, j) in s then Mark else f[i][j]
  }

  /** The cell-by-cell description and the reference picture agree. */
  lemma ShowsIsMarked(g: Grid, f: Grid, s: set<Point>)
    requires Shaped(f)
    ensures Shows(g, f, s) <==> g == Marked(f, s)
  {
    if Shows(g, f, s) {
      CellwiseEqual(g, Marked(f, s));
    }
  }

  /** Plotting logical point p (row index p.y, column index p.x) adds p to what the buffer shows. */
  lemma PlotShows(g: Grid, f: Grid, s: set<Point>, p: Point)
    requires Shaped(f) && Shows(g, f, s)
    ensures Shows(Plot(g, p.y, p.x), f, s + {p})
  {
    var h := Plot(g, p.y, p.x);
    forall i, j | InBounds(i, j)
      ensures h[i][j] == if PointAt(i, j) in s + {p} then Mark else f[i][j]
    {
      if PointAt(i, j) == p {
        assert (i, j) == (p.y + CenterRow, p.x + CenterCol);
      }
    }
  }

  /** Two buffers of the fixed shape are equal when they agree cell by cell. */
  lemma {:induction false} CellwiseEqual(f: Grid, g: Grid)
    requires Shaped(f) && Shaped(g)
    requires forall i, j :: InBounds(i, j) ==> f[i][j] == g[i][j]
    ensures f == g
  {
    forall i | 0 <= i < Rows
      ensures f[i] == g[i]
    {
      assert forall j :: 0 <= j < Cols ==> f[i][j] == g[i][j];
    }
  }

  /** Marking is cumulative: marking s and then t is marking their union. */
  lemma MarkedTwice(f: Grid, s: set<Point>, t: set<Point>)
    requires Shaped(f)
    ensures Marked(Marked(f, s), t) == Marked(f, s + t)
  {
    CellwiseEqual(Marked(Marked(f, s), t), Marked(f, s + t));
  }

  /** Marking nothing leaves the buffer unchanged. */
  lemma MarkedNothing(f: Grid)
    requires Shaped(f)
    ensures Marked(f, {}) == f
  {
    CellwiseEqual(Marked(f, {}), f);
  }

  /** Marks are never cleared, no other byte appears, and cells outside s keep their value. */
  lemma MarkedMonotone(f: Grid, s: set<Point>)
    requires Shaped(f)
    ensures forall i, j :: InBounds(i, j) && f[i][j] == Mark ==> Marked(f, s)[i][j] == Mark
    ensures forall i, j :: InBounds(i, j) && PointAt(i, j) !in s ==> Marked(f, s)[i][j] == f[i][j]
    ensures OnlyGlyphs(f) ==> OnlyGlyphs(Marked(f, s))
  {
  }
}
