/**
  The turtle's drawing operation on its buffer: `draw_field_line` from the
  rounded integer endpoints onward, and the picture a whole drawing session
  leaves behind.
 */
module Turtle {
  import opened Field
  import opened Raster

  /**
    Draw the segment from (x1, y1) to (x2, y2) into f: transpose a steep
    line and order its endpoints, then run the Bresenham loop.
   */
  method DrawFieldLine(f: Grid, x1: int, y1: int, x2: int, y2: int) returns (g: Grid)
    requires Shaped(f)
    ensures g == Marked(f, Cells(Point(x1, y1), Point(x2, y2)))
  {
    var fr := Normalize(Point(x1, y1), Point(x2, y2));
    g := PlotWalk(f, fr);
    CellsAreVisited(Point(x1, y1), Point(x2, y2), fr);
  }

  /**
    The Bresenham loop over a normalised line: one cell per major step,
    charging the error with the minor extent and stepping the minor axis
    when it goes negative. Both plotting branches hand `Plot` the logical
    y first, so the logical point (x, y) lands in row y + 12, column x + 27.
   */
  method PlotWalk(f: Grid, fr: Frame) returns (g: Grid)
    requires Shaped(f)
    ensures g == Marked(f, Visited(fr.steep, Start(fr), Span(fr), Abs(fr.y2 - fr.y1), fr.x2 - fr.x1, Dir(fr.y1, fr.y2)))
  {
    var gt45, x1, y1, x2, y2 := fr.steep, fr.x1, fr.y1, fr.x2, fr.y2;
    var dErr := Abs(y2 - y1);
    var dx := x2 - x1;
    var iy := if y1 < y2 then 1 else -1;
    var err := dx / 2;
    var y := y1;

    g := f;
    var x := x1;
    while x <= x2
      invariant x1 <= x && x - x1 <= Span(fr)
      invariant Cursor(x, y, err) == Run(Start(fr), x - x1, dErr, dx, iy)
      invariant Shows(g, f, Visited(gt45, Start(fr), x - x1, dErr, dx, iy))
      decreases x2 - x
    {
      ghost var c := Cursor(x, y, err);
      assert Shows(if gt45 then Plot(g, x, y) else Plot(g, y, x), f, Visited(gt45, Start(fr), x + 1 - x1, dErr, dx, iy)) by {
        PlotShows(g, f, Visited(gt45, Start(fr), x - x1, dErr, dx, iy), Unframe(gt45, Point(x, y)));
      }
      if gt45 {
        g := Plot(g, x, y);
      } else {
        g := Plot(g, y, x);
      }
      err := err - dErr;
      if err < 0 {
        y := y + iy;
        err := err + dx;
      }
      x := x + 1;
      assert Cursor(x, y, err) == Step(c, dErr, dx, iy);
    }
    ShowsIsMarked(g, f, Visited(gt45, Start(fr), Span(fr), dErr, dx, iy));
  }

  /** Drawing the same segment again, in either direction, changes nothing. */
  lemma RedrawIdempotent(f: Grid, a: Point, b: Point)
    requires Shaped(f)
    ensures Marked(Marked(f, Cells(a, b)), Cells(b, a)) == Marked(f, Cells(a, b))
  {
    LineSymmetric(a, b);
    MarkedTwice(f, Cells(a, b), Cells(a, b));
    assert Cells(a, b) + Cells(a, b) == Cells(a, b);
  }

  /** Drawing a segment marks the cells of both endpoints, where they lie on the grid. */
  lemma EndpointsMarked(f: Grid, a: Point, b: Point)
    requires Shaped(f)
    ensures InBounds(a.y + CenterRow, a.x + CenterCol) ==> Marked(f, Cells(a, b))[a.y + CenterRow][a.x + CenterCol] == Mark
    ensures InBounds(b.y + CenterRow, b.x + CenterCol) ==> Marked(f, Cells(a, b))[b.y + CenterRow][b.x + CenterCol] == Mark
  {
    LineEndpoints(a, b);
    assert PointAt(a.y + CenterRow, a.x + CenterCol) == a;
    assert PointAt(b.y + CenterRow, b.x + CenterCol) == b;
  }

  /** The segments a session draws, in order. */
  type Segment = (Point, Point)

  /** The picture after drawing each segment of segs in turn onto f. */
  function DrawAll(f: Grid, segs: seq<Segment>): (g: Grid)
    requires Shaped(f)
    ensures Shaped(g)
    decreases |segs|
  {
    if segs == [] then f
    else DrawAll(Marked(f, Cells(segs[0].0, segs[0].1)), segs[1..])
  }

  /** Every point on some segment of segs. */
  function AllCells(segs: seq<Segment>): set<Point>
    decreases |segs|
  {
    if segs == [] then {} else Cells(segs[0].0, segs[0].1) + AllCells(segs[1..])
  }

  /** A session's picture is f with the union of its segments' cells marked. */
  lemma {:induction false} DrawAllMarksUnion(f: Grid, segs: seq<Segment>)
    requires Shaped(f)
    ensures DrawAll(f, segs) == Marked(f, AllCells(segs))
    decreases |segs|
  {
    if segs == [] {
      MarkedNothing(f);
    } else {
      var s := Cells(segs[0].0, segs[0].1);
      DrawAllMarksUnion(Marked(f, s), segs[1..]);
      MarkedTwice(f, s, AllCells(segs[1..]));
    }
  }

  /**
    From the fresh buffer, any session leaves only '.' and '@' bytes, and a
    cell holds '@' exactly when its logical point lies on a drawn segment.
   */
  lemma SessionPicture(segs: seq<Segment>)
    ensures OnlyGlyphs(DrawAll(NewField(), segs))
    ensures forall i, j :: InBounds(i, j) ==>
      (DrawAll(NewField(), segs)[i][j] == Mark <==> PointAt(i, j) in AllCells(segs))
  {
    DrawAllMarksUnion(NewField(), segs);
    MarkedMonotone(NewField(), AllCells(segs));
  }

  /** The segment from (0, 0) to (5, 0) visits the six points of the x-axis in order. */
  lemma HorizontalExample()
    ensures Line(Point(0, 0), Point(5, 0)) == [Point(0, 0), Point(1, 0), Point(2, 0), Point(3, 0), Point(4, 0), Point(5, 0)]
  {
    var fr := Frame(false, 0, 0, 5, 0);
    var l := [Point(0, 0), Point(1, 0), Point(2, 0), Point(3, 0), Point(4, 0), Point(5, 0)];
    forall k | 0 <= k < |l|
      ensures l[k] == Plotted(false, Cursor(0, 0, 2), k, 0, 5, -1)
    {
      if k == 0 {
        assert Plotted(false, Cursor(0, 0, 2), 0, 0, 5, -1) == Point(0, 0);
      } else if k == 1 {
        assert Plotted(false, Cursor(0, 0, 2), 1, 0, 5, -1) == Point(1, 0);
      } else if k == 2 {
        assert Plotted(false, Cursor(0, 0, 2), 2, 0, 5, -1) == Point(2, 0);
      } else if k == 3 {
        assert Plotted(false, Cursor(0, 0, 2), 3, 0, 5, -1) == Point(3, 0);
      } else if k == 4 {
        assert Plotted(false, Cursor(0, 0, 2), 4, 0, 5, -1) == Point(4, 0);
      } else {
        assert Plotted(false, Cursor(0, 0, 2), 5, 0, 5, -1) == Point(5, 0);
      }
    }
    assert Normalize(Point(0, 0), Point(5, 0)) == fr;
    assert Start(fr) == Cursor(0, 0, 2) && Abs(fr.y2 - fr.y1) == 0 && fr.x2 - fr.x1 == 5 && Dir(fr.y1, fr.y2) == -1;
    LineIs(Point(0, 0), Point(5, 0), fr, l);
  }

  /** The diagonal from (0, 0) to (3, 3) steps both coordinates every time. */
  lemma DiagonalExample()
    ensures Line(Point(0, 0), Point(3, 3)) == [Point(0, 0), Point(1, 1), Point(2, 2), Point(3, 3)]
  {
    var fr := Frame(false, 0, 0, 3, 3);
    var l := [Point(0, 0), Point(1, 1), Point(2, 2), Point(3, 3)];
    forall k | 0 <= k < |l|
      ensures l[k] == Plotted(false, Cursor(0, 0, 1), k, 3, 3, 1)
    {
      if k == 0 {
        assert Plotted(false, Cursor(0, 0, 1), 0, 3, 3, 1) == Point(0, 0);
      } else if k == 1 {
        assert Plotted(false, Cursor(0, 0, 1), 1, 3, 3, 1) == Point(1, 1);
      } else if k == 2 {
        assert Plotted(false, Cursor(0, 0, 1), 2, 3, 3, 1) == Point(2, 2);
      } else {
        assert Plotted(false, Cursor(0, 0, 1), 3, 3, 3, 1) == Point(3, 3);
      }
    }
    assert Normalize(Point(0, 0), Point(3, 3)) == fr;
    assert Start(fr) == Cursor(0, 0, 1) && Abs(fr.y2 - fr.y1) == 3 && fr.x2 - fr.x1 == 3 && Dir(fr.y1, fr.y2) == 1;
    LineIs(Point(0, 0), Point(3, 3), fr, l);
  }

  /** The steep segment from (0, 0) to (1, 5) takes its single x-step halfway up. */
  lemma SteepExample()
    ensures Line(Point(0, 0), Point(1, 5)) == [Point(0, 0), Point(0, 1), Point(0, 2), Point(1, 3), Point(1, 4), Point(1, 5)]
  {
    var fr := Frame(true, 0, 0, 5, 1);
    var l := [Point(0, 0), Point(0, 1), Point(0, 2), Point(1, 3), Point(1, 4), Point(1, 5)];
    forall k | 0 <= k < |l|
      ensures l[k] == Plotted(true, Cursor(0, 0, 2), k, 1, 5, 1)
    {
      if k == 0 {
        assert Plotted(true, Cursor(0, 0, 2), 0, 1, 5, 1) == Point(0, 0);
      } else if k == 1 {
        assert Plotted(true, Cursor(0, 0, 2), 1, 1, 5, 1) == Point(0, 1);
      } else if k == 2 {
        assert Plotted(true, Cursor(0, 0, 2), 2, 1, 5, 1) == Point(0, 2);
      } else if k == 3 {
        assert Plotted(true, Cursor(0, 0, 2), 3, 1, 5, 1) == Point(1, 3);
      } else if k == 4 {
        assert Plotted(true, Cursor(0, 0, 2), 4, 1, 5, 1) == Point(1, 4);
      } else {
        assert Plotted(true, Cursor(0, 0, 2), 5, 1, 5, 1) == Point(1, 5);
      }
    }
    assert Normalize(Point(0, 0), Point(1, 5)) == fr;
    assert Start(fr) == Cursor(0, 0, 2) && Abs(fr.y2 - fr.y1) == 1 && fr.x2 - fr.x1 == 5 && Dir(fr.y1, fr.y2) == 1;
    LineIs(Point(0, 0), Point(1, 5), fr, l);
  }

  /** The cells of the segment from (0, 0) to (5, 0) are exactly the points (x, 0) with 0 <= x <= 5. */
  lemma HorizontalCells()
    ensures forall p :: p in Cells(Point(0, 0), Point(5, 0)) <==> 0 <= p.x <= 5 && p.y == 0
  {
    HorizontalExample();
    AxisPoints(Line(Point(0, 0), Point(5, 0)));
  }

  /** A sequence holding (0, 0) through (5, 0) in order contains exactly the points (x, 0) with 0 <= x <= 5. */
  lemma AxisPoints(l: seq<Point>)
    requires |l| == 6
    requires l[0] == Point(0, 0) && l[1] == Point(1, 0) && l[2] == Point(2, 0)
    requires l[3] == Point(3, 0) && l[4] == Point(4, 0) && l[5] == Point(5, 0)
    ensures forall p :: p in l <==> 0 <= p.x <= 5 && p.y == 0
  {
    forall p: Point | 0 <= p.x <= 5 && p.y == 0
      ensures p in l
    {
      assert l[p.x] == p;
    }
  }

  /** Drawing (0, 0) to (5, 0) on the fresh buffer marks row 12, columns 27 through 32, and nothing else in that row. */
  lemma HorizontalPicture()
    ensures forall i, j :: InBounds(i, j) ==>
      (Marked(NewField(), Cells(Point(0, 0), Point(5, 0)))[i][j] == Mark <==> i == 12 && 27 <= j <= 32)
  {
    var s := Cells(Point(0, 0), Point(5, 0));
    HorizontalCells();
    var f := NewField();
    forall i, j | InBounds(i, j)
      ensures Marked(f, s)[i][j] == Mark <==> i == 12 && 27 <= j <= 32
    {
      assert PointAt(i, j) == Point(j - 27, i - 12);
      assert f[i][j] != Mark;
    }
  }
}
