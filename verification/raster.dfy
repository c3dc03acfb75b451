/**
  Bresenham line rasterisation from integer endpoints: the steep-line
  transpose, the endpoint-order swap and the error-accumulation walk along
  the major axis. `Line(a, b)` is the sequence of logical points the
  drawing loop visits, in order.
 */
module Raster {
  import opened Field
  import opened Arith

  function Abs(v: int): nat {
    if v < 0 then -v else v
  }

  /** Unit step from a towards b, -1 when b is not above a (`iy` in `draw_field_line`). */
  function Dir(a: int, b: int): int {
    if a < b then 1 else -1
  }

  /**
    The line after normalisation: `steep` records the transpose; the
    endpoints (x1, y1), (x2, y2) are in major/minor coordinates, ordered
    so that x1 <= x2.
   */
  datatype Frame = Frame(steep: bool, x1: int, y1: int, x2: int, y2: int)

  /** Undo the transpose: a major/minor point back to a logical point. */
  function Unframe(steep: bool, p: Point): Point {
    if steep then Point(p.y, p.x) else p
  }

  /** Transpose steep lines, then swap the endpoints so the major coordinate grows. */
  function Normalize(a: Point, b: Point): (fr: Frame)
    ensures fr.steep <==> Abs(b.y - a.y) > Abs(b.x - a.x)
    ensures fr.x1 <= fr.x2
    ensures fr.x2 - fr.x1 == Max(Abs(b.x - a.x), Abs(b.y - a.y))
    ensures Abs(fr.y2 - fr.y1) <= fr.x2 - fr.x1
    ensures || (Unframe(fr.steep, Point(fr.x1, fr.y1)) == a && Unframe(fr.steep, Point(fr.x2, fr.y2)) == b)
            || (Unframe(fr.steep, Point(fr.x1, fr.y1)) == b && Unframe(fr.steep, Point(fr.x2, fr.y2)) == a)
  {
    var steep := Abs(b.y - a.y) > Abs(b.x - a.x);
    var p := if steep then Point(a.y, a.x) else a;
    var q := if steep then Point(b.y, b.x) else b;
    if p.x > q.x then Frame(steep, q.x, q.y, p.x, p.y)
    else Frame(steep, p.x, p.y, q.x, q.y)
  }

  /** Loop state: the major coordinate, the minor coordinate and the error term. */
  datatype Cursor = Cursor(x: int, y: int, err: int)

  /** The error term's range: 0 <= err < dx whenever dx >= 1, and 0 on a one-point line. */
  predicate ErrInRange(err: int, dx: int) {
    if dx == 0 then err == 0 else 0 <= err < dx
  }

  /** The body of the loop after the plot: charge `dErr`; on a negative error, step the minor axis and refund `dx`. */
  function Step(c: Cursor, dErr: int, dx: int, iy: int): (n: Cursor)
    ensures n.x == c.x + 1
  {
    var e := c.err - dErr;
    if e < 0 then Cursor(c.x + 1, c.y + iy, e + dx) else Cursor(c.x + 1, c.y, e)
  }

  /**
    A step either keeps the minor coordinate and charges dErr to the error,
    or moves the minor coordinate by iy and charges dErr - dx; with
    0 <= dErr <= dx it keeps the error term in range.
   */
  lemma StepCases(c: Cursor, dErr: int, dx: int, iy: int)
    ensures || (Step(c, dErr, dx, iy).y == c.y && Step(c, dErr, dx, iy).err == c.err - dErr)
            || (Step(c, dErr, dx, iy).y == c.y + iy && Step(c, dErr, dx, iy).err == c.err - dErr + dx)
    ensures 0 <= dErr <= dx && ErrInRange(c.err, dx) ==> ErrInRange(Step(c, dErr, dx, iy).err, dx)
  {
  }

  /** The n points plotted from cursor c onward, one per iteration. */
  function Walk(c: Cursor, n: nat, dErr: int, dx: int, iy: int): (ps: seq<Point>)
    ensures |ps| == n
    decreases n
  {
    if n == 0 then []
    else [Point(c.x, c.y)] + Walk(Step(c, dErr, dx, iy), n - 1, dErr, dx, iy)
  }

  /** Number of iterations of the loop over x1..=x2 (none when x1 > x2). */
  function Span(fr: Frame): nat {
    if fr.x1 <= fr.x2 then fr.x2 - fr.x1 + 1 else 0
  }

  /** The walk of a normalised line, in major/minor coordinates. */
  function FrameWalk(fr: Frame): seq<Point> {
    Walk(Start(fr), Span(fr), Abs(fr.y2 - fr.y1), fr.x2 - fr.x1, Dir(fr.y1, fr.y2))
  }

  /** The logical points visited when drawing from a to b, in visiting order. */
  function Line(a: Point, b: Point): (ps: seq<Point>)
    ensures |ps| == Max(Abs(b.x - a.x), Abs(b.y - a.y)) + 1
  {
    var fr := Normalize(a, b);
    var w := FrameWalk(fr);
    seq(|w|, k requires 0 <= k < |w| => Unframe(fr.steep, w[k]))
  }

  /** The set of logical points a line visits. */
  function Cells(a: Point, b: Point): set<Point> {
    set p | p in Line(a, b)
  }

  /** The k-th point of w has major coordinate x0 + k. */
  predicate MajorSteps(w: seq<Point>, x0: int) {
    forall k :: 0 <= k < |w| ==> w[k].x == x0 + k
  }

  /** Each point of w keeps the minor coordinate of its predecessor or moves it by iy. */
  predicate MinorSteps(w: seq<Point>, iy: int) {
    forall k :: 0 < k < |w| ==> w[k].y == w[k - 1].y || w[k].y == w[k - 1].y + iy
  }

  /** The loop state after k iterations from c. */
  function Run(c: Cursor, k: nat, dErr: int, dx: int, iy: int): Cursor {
    if k == 0 then c else Step(Run(c, k - 1, dErr, dx, iy), dErr, dx, iy)
  }

  /** The logical point plotted by iteration k from c. */
  function Plotted(steep: bool, c: Cursor, k: nat, dErr: int, dx: int, iy: int): Point {
    var r := Run(c, k, dErr, dx, iy);
    Unframe(steep, Point(r.x, r.y))
  }

  /** The logical points plotted in the first n iterations from c. */
  function Visited(steep: bool, c: Cursor, n: nat, dErr: int, dx: int, iy: int): set<Point> {
    if n == 0 then {}
    else Visited(steep, c, n - 1, dErr, dx, iy) + {Plotted(steep, c, n - 1, dErr, dx, iy)}
  }

  /** Iterating from c is one step followed by iterating from the next state. */
  lemma {:induction false} RunAfterStep(c: Cursor, k: nat, dErr: int, dx: int, iy: int)
    ensures Run(c, k + 1, dErr, dx, iy) == Run(Step(c, dErr, dx, iy), k, dErr, dx, iy)
  {
    if k > 0 {
      RunAfterStep(c, k - 1, dErr, dx, iy);
    }
  }

  /** The k-th point of a walk is where the loop stands after k iterations. */
  lemma {:induction false} WalkAt(c: Cursor, n: nat, k: nat, dErr: int, dx: int, iy: int)
    requires k < n
    ensures Walk(c, n, dErr, dx, iy)[k]
         == Point(Run(c, k, dErr, dx, iy).x, Run(c, k, dErr, dx, iy).y)
    decreases k
  {
    if k > 0 {
      var s := Step(c, dErr, dx, iy);
      WalkAt(s, n - 1, k - 1, dErr, dx, iy);
      RunAfterStep(c, k - 1, dErr, dx, iy);
      assert Walk(c, n, dErr, dx, iy)[k] == Walk(s, n - 1, dErr, dx, iy)[k - 1];
    }
  }

  /** A point is among the first n visited exactly when one of the first n iterations plots it. */
  lemma {:induction false} VisitedMembers(steep: bool, c: Cursor, n: nat, dErr: int, dx: int, iy: int, q: Point)
    ensures q in Visited(steep, c, n, dErr, dx, iy)
        <==> exists k :: 0 <= k < n && Plotted(steep, c, k, dErr, dx, iy) == q
  {
    if n > 0 {
      VisitedMembers(steep, c, n - 1, dErr, dx, iy, q);
    }
  }

  /**
    On a normalised frame (x1 <= x2, minor extent at most the major one) the
    error term stays in range at every iteration: 0 <= err < dx, or 0 when
    the line is a single point.
   */
  lemma {:induction false} RunErrInRange(fr: Frame, k: nat)
    requires fr.x1 <= fr.x2 && Abs(fr.y2 - fr.y1) <= fr.x2 - fr.x1
    ensures ErrInRange(Run(Start(fr), k, Abs(fr.y2 - fr.y1), fr.x2 - fr.x1, Dir(fr.y1, fr.y2)).err, fr.x2 - fr.x1)
    decreases k
  {
    var dErr, dx, iy := Abs(fr.y2 - fr.y1), fr.x2 - fr.x1, Dir(fr.y1, fr.y2);
    if k > 0 {
      RunErrInRange(fr, k - 1);
      StepCases(Run(Start(fr), k - 1, dErr, dx, iy), dErr, dx, iy);
    }
  }

  /** The loop's starting state for a normalised line: at the first endpoint, error dx >> 1. */
  function Start(fr: Frame): Cursor {
    Cursor(fr.x1, fr.y1, (fr.x2 - fr.x1) / 2)
  }

  /** The k-th point of a line is the point plotted by iteration k. */
  lemma LinePointIsPlotted(a: Point, b: Point, fr: Frame, k: nat)
    requires fr == Normalize(a, b) && k < |Line(a, b)|
    ensures Line(a, b)[k] == Plotted(fr.steep, Start(fr), k, Abs(fr.y2 - fr.y1), fr.x2 - fr.x1, Dir(fr.y1, fr.y2))
  {
    WalkAt(Start(fr), Span(fr), k, Abs(fr.y2 - fr.y1), fr.x2 - fr.x1, Dir(fr.y1, fr.y2));
  }

  /** A sequence that holds, at every index of the loop's range, the point that iteration plots is the line. */
  lemma LineIs(a: Point, b: Point, fr: Frame, l: seq<Point>)
    requires fr == Normalize(a, b)
    requires |l| == Span(fr)
    requires forall k :: 0 <= k < |l| ==> l[k] == Plotted(fr.steep, Start(fr), k, Abs(fr.y2 - fr.y1), fr.x2 - fr.x1, Dir(fr.y1, fr.y2))
    ensures Line(a, b) == l
  {
    forall k | 0 <= k < |l|
      ensures Line(a, b)[k] == l[k]
    {
      LinePointIsPlotted(a, b, fr, k);
    }
  }

  /** Every cell of the line is plotted by one of its iterations, and nothing else is. */
  lemma CellIffVisited(a: Point, b: Point, fr: Frame, q: Point)
    requires fr == Normalize(a, b)
    ensures q in Cells(a, b) <==> q in Visited(fr.steep, Start(fr), Span(fr), Abs(fr.y2 - fr.y1), fr.x2 - fr.x1, Dir(fr.y1, fr.y2))
  {
    var l := Line(a, b);
    var c, n, dErr, dx, iy := Start(fr), Span(fr), Abs(fr.y2 - fr.y1), fr.x2 - fr.x1, Dir(fr.y1, fr.y2);
    VisitedMembers(fr.steep, c, n, dErr, dx, iy, q);
    if q in Cells(a, b) {
      var k :| 0 <= k < |l| && l[k] == q;
      LinePointIsPlotted(a, b, fr, k);
    }
    if q in Visited(fr.steep, c, n, dErr, dx, iy) {
      var k :| 0 <= k < n && Plotted(fr.steep, c, k, dErr, dx, iy) == q;
      LinePointIsPlotted(a, b, fr, k);
    }
  }

  /** Once every major step is taken, the visited points are the line's cells. */
  lemma CellsAreVisited(a: Point, b: Point, fr: Frame)
    requires fr == Normalize(a, b)
    ensures Cells(a, b) == Visited(fr.steep, Start(fr), Span(fr), Abs(fr.y2 - fr.y1), fr.x2 - fr.x1, Dir(fr.y1, fr.y2))
  {
    forall q {
      CellIffVisited(a, b, fr, q);
    }
  }

  /** Along a walk the major coordinate advances by one per point and the minor one by 0 or iy. */
  lemma {:induction false} WalkStaircase(c: Cursor, len: nat, dErr: int, dx: int, iy: int)
    ensures MajorSteps(Walk(c, len, dErr, dx, iy), c.x)
    ensures MinorSteps(Walk(c, len, dErr, dx, iy), iy)
    decreases len
  {
    if len > 0 {
      var n := Step(c, dErr, dx, iy);
      StepCases(c, dErr, dx, iy);
      var w, rest := Walk(c, len, dErr, dx, iy), Walk(n, len - 1, dErr, dx, iy);
      WalkStaircase(n, len - 1, dErr, dx, iy);
      assert w == [Point(c.x, c.y)] + rest;
      forall k | 0 <= k < |w|
        ensures w[k].x == c.x + k
        ensures k > 0 ==> w[k].y == w[k - 1].y || w[k].y == w[k - 1].y + iy
      {
        if k > 0 {
          assert w[k] == rest[k - 1];
          if k == 1 {
            assert rest[0] == Point(n.x, n.y);
          } else {
            assert w[k - 1] == rest[k - 2];
          }
        }
      }
    }
  }

  /** If c * d lies strictly between -d and d for a positive d, then c is zero. */
  lemma StrictMultipleIsZero(c: int, d: int)
    requires d >= 1
    requires -d < c * d < d
    ensures c == 0
  {
  }

  /**
    The walk ends on the second endpoint. With k major steps taken and m
    minor steps made, the error term is h - k * dErr + m * dx; at the last
    point k is dx, and the error range pins m to dErr.
   */
  lemma {:induction false} WalkReachesEnd(c: Cursor, y1: int, h: int, k: nat, m: int, dErr: int, dx: int, iy: int)
    requires dx >= 1 && 0 <= dErr <= dx && 0 <= h < dx
    requires k <= dx
    requires c.y == y1 + iy * m
    requires c.err == h - k * dErr + m * dx
    requires ErrInRange(c.err, dx)
    ensures Walk(c, dx - k + 1, dErr, dx, iy)[dx - k] == Point(c.x + dx - k, y1 + iy * dErr)
    decreases dx - k
  {
    var w := Walk(c, dx - k + 1, dErr, dx, iy);
    if k == dx {
      assert w[0] == Point(c.x, c.y);
      assert (m - dErr) * dx == c.err - h by {
        MulDistrib(m, dErr, dx);
        assert k * dErr == dErr * dx;
      }
      StrictMultipleIsZero(m - dErr, dx);
    } else {
      var n := Step(c, dErr, dx, iy);
      StepCases(c, dErr, dx, iy);
      var m' := if c.err - dErr < 0 then m + 1 else m;
      assert n.err == h - (k + 1) * dErr + m' * dx by {
        MulDistrib(k + 1, 1, dErr);
        MulDistrib(m + 1, 1, dx);
      }
      assert n.y == y1 + iy * m' by {
        MulDistrib(m + 1, 1, iy);
      }
      WalkReachesEnd(n, y1, h, k + 1, m', dErr, dx, iy);
      assert w[dx - k] == Walk(n, dx - k, dErr, dx, iy)[dx - (k + 1)];
    }
  }

  /** Multiplication distributes over subtraction. */
  lemma MulDistrib(a: int, b: int, c: int)
    ensures (a - b) * c == a * c - b * c
  {
  }

  /** The walk of a normalised line starts at its first endpoint and ends at its second. */
  lemma FrameWalkEnds(fr: Frame)
    requires fr.x1 <= fr.x2 && Abs(fr.y2 - fr.y1) <= fr.x2 - fr.x1
    ensures |FrameWalk(fr)| == fr.x2 - fr.x1 + 1
    ensures FrameWalk(fr)[0] == Point(fr.x1, fr.y1)
    ensures FrameWalk(fr)[fr.x2 - fr.x1] == Point(fr.x2, fr.y2)
  {
    var dx, dErr, iy := fr.x2 - fr.x1, Abs(fr.y2 - fr.y1), Dir(fr.y1, fr.y2);
    var w := FrameWalk(fr);
    if dx == 0 {
      assert fr.y1 == fr.y2;
      assert w == [Point(fr.x1, fr.y1)];
    } else {
      WalkReachesEnd(Start(fr), fr.y1, dx / 2, 0, 0, dErr, dx, iy);
      assert fr.y1 + iy * dErr == fr.y2;
    }
  }

  /** The first and last visited points are the two endpoints, in one order or the other. */
  lemma LineEndpoints(a: Point, b: Point)
    ensures || (Line(a, b)[0] == a && Line(a, b)[|Line(a, b)| - 1] == b)
            || (Line(a, b)[0] == b && Line(a, b)[|Line(a, b)| - 1] == a)
    ensures a in Cells(a, b) && b in Cells(a, b)
  {
    var fr := Normalize(a, b);
    FrameWalkEnds(fr);
    var l := Line(a, b);
    assert l[0] == Unframe(fr.steep, Point(fr.x1, fr.y1));
    assert l[|l| - 1] == Unframe(fr.steep, Point(fr.x2, fr.y2));
  }

  /** q follows p by one step of a monotone 8-connected staircase heading (sx, sy). */
  predicate StepOf(p: Point, q: Point, sx: int, sy: int) {
    && (q.x == p.x || q.x == p.x + sx)
    && (q.y == p.y || q.y == p.y + sy)
    && q != p
  }

  /**
    A monotone 8-connected staircase: consecutive points are distinct
    8-neighbours, and every step heads the same way in each coordinate,
    from the first point towards the last.
   */
  predicate Staircase(l: seq<Point>) {
    |l| > 0 &&
    var sx, sy := Dir(l[0].x, l[|l| - 1].x), Dir(l[0].y, l[|l| - 1].y);
    forall k :: 0 < k < |l| ==> StepOf(l[k - 1], l[k], sx, sy)
  }

  /** No point occurs twice. */
  predicate Distinct(l: seq<Point>) {
    forall i, j :: 0 <= i < j < |l| ==> l[i] != l[j]
  }

  /** The visited points form a monotone 8-connected staircase. */
  lemma LineStaircase(a: Point, b: Point)
    ensures Staircase(Line(a, b))
  {
    var fr := Normalize(a, b);
    var iy := Dir(fr.y1, fr.y2);
    var w := FrameWalk(fr);
    WalkStaircase(Start(fr), Span(fr), Abs(fr.y2 - fr.y1), fr.x2 - fr.x1, iy);
    FrameWalkEnds(fr);
    var l := Line(a, b);
    var last := |l| - 1;
    assert l[0] == Unframe(fr.steep, Point(fr.x1, fr.y1));
    assert l[last] == Unframe(fr.steep, Point(fr.x2, fr.y2));
    var sx, sy := Dir(l[0].x, l[last].x), Dir(l[0].y, l[last].y);
    forall k | 0 < k < |l|
      ensures StepOf(l[k - 1], l[k], sx, sy)
    {
      assert l[k] == Unframe(fr.steep, w[k]) && l[k - 1] == Unframe(fr.steep, w[k - 1]);
      assert w[k].x == w[k - 1].x + 1;
      assert w[k].y == w[k - 1].y || w[k].y == w[k - 1].y + iy;
      assert fr.x1 < fr.x2;
      if fr.steep {
        assert sy == 1 && sx == iy;
      } else {
        assert sx == 1 && sy == iy;
      }
    }
  }

  /** The line visits each point once: its cell count equals its length. */
  lemma LineDistinct(a: Point, b: Point)
    ensures Distinct(Line(a, b))
    ensures |Cells(a, b)| == |Line(a, b)|
  {
    var fr := Normalize(a, b);
    var dx := fr.x2 - fr.x1;
    var w := FrameWalk(fr);
    WalkStaircase(Start(fr), Span(fr), Abs(fr.y2 - fr.y1), dx, Dir(fr.y1, fr.y2));
    var l := Line(a, b);
    forall i, j | 0 <= i < j < |l|
      ensures l[i] != l[j]
    {
      assert w[i].x != w[j].x;
    }
    DistinctCard(l);
  }

  /** A sequence without repetitions has as many distinct elements as positions. */
  lemma {:induction false} DistinctCard(l: seq<Point>)
    requires Distinct(l)
    ensures |set p | p in l| == |l|
  {
    if l != [] {
      var init := l[..|l| - 1];
      DistinctCard(init);
      assert (set p | p in l) == (set p | p in init) + {l[|l| - 1]};
      assert l[|l| - 1] !in init;
    }
  }

  /** Both call orders normalise to the same frame. */
  lemma NormalizeSymmetric(a: Point, b: Point)
    ensures Normalize(a, b) == Normalize(b, a)
  {
  }

  /** Drawing a to b and b to a visit the same points in the same order. */
  lemma LineSymmetric(a: Point, b: Point)
    ensures Line(a, b) == Line(b, a)
    ensures Cells(a, b) == Cells(b, a)
  {
    NormalizeSymmetric(a, b);
  }
}
