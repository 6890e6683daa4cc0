/**
  Which pixels a straight line visits, in closed form: at step `i` of the longer side the shorter
  side has advanced by the integer nearest to the exact crossing.
 */
module Lines {
  import opened Cyclic

  datatype Point = Point(x: int, y: int)

  function Distance(a: int, b: int): nat {
    if b > a then b - a else a - b
  }

  /** `n` steps from `a` in the direction of `b`; a degenerate side counts as going down. */
  function Toward(a: int, b: int, n: int): int {
    if b > a then a + n else a - n
  }

  /** Nearest integer to `i * minor / major`, halves rounded up. */
  function MinorOffset(minor: nat, major: nat, i: nat): nat {
    if major == 0 then 0 else (2 * (i * minor) + major) / (2 * major)
  }

  function LineLength(a: Point, b: Point): nat {
    if Distance(a.x, b.x) > Distance(a.y, b.y) then Distance(a.x, b.x) else Distance(a.y, b.y)
  }

  /** The pixel visited at step `i`. */
  function LinePoint(a: Point, b: Point, i: nat): Point {
    var dx, dy := Distance(a.x, b.x), Distance(a.y, b.y);
    if dx > dy then
      Point(Toward(a.x, b.x, i), Toward(a.y, b.y, MinorOffset(dy, dx, i)))
    else
      Point(Toward(a.x, b.x, MinorOffset(dx, dy, i)), Toward(a.y, b.y, i))
  }

  function LinePoints(a: Point, b: Point): set<Point> {
    set i | 0 <= i <= LineLength(a, b) :: LinePoint(a, b, i)
  }

  /** The same pixels in the order in which they are visited. */
  function LinePath(a: Point, b: Point): (path: seq<Point>)
    ensures |path| == LineLength(a, b) + 1
  {
    seq(LineLength(a, b) + 1, i requires 0 <= i <= LineLength(a, b) => LinePoint(a, b, i))
  }

  function Points(path: seq<Point>): set<Point> {
    set p | p in path
  }

  lemma LinePathPoints(a: Point, b: Point)
    ensures Points(LinePath(a, b)) == LinePoints(a, b)
  {
    hide LinePoint, LineLength;
    var path := LinePath(a, b);
    forall p | p in LinePoints(a, b)
      ensures p in path
    {
      var i :| 0 <= i <= LineLength(a, b) && p == LinePoint(a, b, i);
      assert path[i] == p;
    }
  }

  /** The rounding condition characterises the minor offset: it holds of that offset and of no other. */
  lemma MinorOffsetExact(minor: nat, major: nat, i: nat, k: int)
    requires major >= 1
    ensures 0 <= 2 * (i * minor - k * major) + major < 2 * major <==> k == MinorOffset(minor, major, i)
  {
    assert k * (2 * major) == 2 * (k * major);
    QuotientRemainder(2 * (i * minor) + major, 2 * major, k);
  }

  /** No pixel of the same step is closer to the exact line. */
  lemma MinorOffsetNearest(minor: nat, major: nat, i: nat, k: int)
    requires major >= 1
    ensures var e := i * minor - MinorOffset(minor, major, i) * major;
            var f := i * minor - k * major;
            (if e < 0 then -e else e) <= (if f < 0 then -f else f)
  {
    var m := MinorOffset(minor, major, i);
    MinorOffsetExact(minor, major, i, m);
    var d := k - m;
    assert k * major == m * major + d * major;
    if d >= 1 {
      MulAtLeast(d, major);
    } else if d <= -1 {
      MulAtLeast(-d, major);
      assert -d * major == -(d * major);
    }
  }

  /** One turn of the loop: adding `2 * minor` to the error term and wrapping it at zero. */
  lemma ErrorStep(minor: nat, major: nat, i: nat, E: int)
    requires minor <= major && E == 2 * (i * minor - MinorOffset(minor, major, i) * major) - major
    requires major >= 1
    ensures var wrap := E + 2 * minor >= 0;
            && MinorOffset(minor, major, i + 1) == MinorOffset(minor, major, i) + (if wrap then 1 else 0)
            && (if wrap then E + 2 * minor - 2 * major else E + 2 * minor)
            == 2 * ((i + 1) * minor - MinorOffset(minor, major, i + 1) * major) - major
  {
    var k := MinorOffset(minor, major, i);
    var k' := if E + 2 * minor >= 0 then k + 1 else k;
    MinorOffsetExact(minor, major, i, k);
    assert (i + 1) * minor == i * minor + minor;
    assert (k + 1) * major == k * major + major;
    MinorOffsetExact(minor, major, i + 1, k');
  }

  /** The minor offset runs from 0 to the full minor length, never backwards, never by more than one. */
  lemma MinorOffsetRange(minor: nat, major: nat, i: nat)
    requires minor <= major
    ensures MinorOffset(minor, major, 0) == 0
    ensures MinorOffset(minor, major, major) == minor
    ensures MinorOffset(minor, major, i) <= MinorOffset(minor, major, i + 1) <= MinorOffset(minor, major, i) + 1
    ensures i <= major ==> MinorOffset(minor, major, i) <= minor
    decreases major - i
  {
    if major > 0 {
      MinorOffsetExact(minor, major, 0, 0);
      assert major * minor - minor * major == 0;
      MinorOffsetExact(minor, major, major, minor);
      ErrorStep(minor, major, i, 2 * (i * minor - MinorOffset(minor, major, i) * major) - major);
      if i < major {
        MinorOffsetRange(minor, major, i + 1);
      }
    }
  }

  ghost predicate Between(a: int, v: int, b: int) {
    a <= v <= b || b <= v <= a
  }

  /** A line starts and ends where it is told to and stays in the box spanned by its ends. */
  lemma LineEnds(a: Point, b: Point, i: nat)
    requires i <= LineLength(a, b)
    ensures LinePoint(a, b, 0) == a && LinePoint(a, b, LineLength(a, b)) == b
    ensures Between(a.x, LinePoint(a, b, i).x, b.x) && Between(a.y, LinePoint(a, b, i).y, b.y)
  {
    var dx, dy := Distance(a.x, b.x), Distance(a.y, b.y);
    if dx > dy {
      MinorOffsetRange(dy, dx, i);
    } else {
      MinorOffsetRange(dx, dy, i);
    }
  }

  lemma LineEndsOnPath(a: Point, b: Point)
    ensures a in LinePath(a, b) && b in LinePath(a, b)
  {
    LineEnds(a, b, 0);
    assert LinePath(a, b)[0] == a;
    assert LinePath(a, b)[LineLength(a, b)] == b;
  }

  ghost predicate Neighbours(p: Point, q: Point) {
    p != q && -1 <= p.x - q.x <= 1 && -1 <= p.y - q.y <= 1
  }

  /** Consecutive pixels touch, and both coordinates move only towards the far end. */
  lemma LineConnected(a: Point, b: Point, i: nat)
    requires i < LineLength(a, b)
    ensures Neighbours(LinePoint(a, b, i), LinePoint(a, b, i + 1))
    ensures Between(LinePoint(a, b, i).x, LinePoint(a, b, i + 1).x, b.x)
    ensures Between(LinePoint(a, b, i).y, LinePoint(a, b, i + 1).y, b.y)
  {
    LineEnds(a, b, i);
    LineEnds(a, b, i + 1);
    var dx, dy := Distance(a.x, b.x), Distance(a.y, b.y);
    if dx > dy {
      MinorOffsetRange(dy, dx, i);
    } else {
      MinorOffsetRange(dx, dy, i);
    }
  }

  lemma StepsDiffer(a: Point, b: Point, i: nat, j: nat)
    requires i != j
    ensures LinePoint(a, b, i) != LinePoint(a, b, j)
  {
  }

  lemma {:induction false} LinePrefixSize(a: Point, b: Point, n: nat)
    ensures |set i | 0 <= i < n :: LinePoint(a, b, i)| == n
  {
    var s := set i | 0 <= i < n :: LinePoint(a, b, i);
    if n == 0 {
      assert s == {};
    } else {
      LinePrefixSize(a, b, n - 1);
      var t := set i | 0 <= i < n - 1 :: LinePoint(a, b, i);
      assert s == t + {LinePoint(a, b, n - 1)};
      forall i | 0 <= i < n - 1
        ensures LinePoint(a, b, i) != LinePoint(a, b, n - 1)
      {
        StepsDiffer(a, b, i, n - 1);
      }
    }
  }

  /** A line of length D plots exactly D + 1 different pixels. */
  lemma LineSize(a: Point, b: Point)
    ensures |LinePoints(a, b)| == LineLength(a, b) + 1
  {
    LinePrefixSize(a, b, LineLength(a, b) + 1);
    assert LinePoints(a, b) == set i | 0 <= i < LineLength(a, b) + 1 :: LinePoint(a, b, i);
  }

  /** Rows `lo..hi` of one column. */
  function Segment(x: int, lo: int, hi: int): set<Point> {
    set y | lo <= y <= hi :: Point(x, y)
  }

  /** A vertical line fills exactly the rows between its ends, whichever end comes first. */
  lemma VerticalLine(x: int, y1: int, y2: int)
    ensures LinePoints(Point(x, y1), Point(x, y2)) == if y1 <= y2 then Segment(x, y1, y2) else Segment(x, y2, y1)
  {
    var a, b := Point(x, y1), Point(x, y2);
    var n := LineLength(a, b);
    forall i | 0 <= i <= n
      ensures LinePoint(a, b, i) == Point(x, Toward(y1, y2, i))
    {
      if n > 0 {
        MinorOffsetExact(0, n, i, 0);
      }
    }
    var s := if y1 <= y2 then Segment(x, y1, y2) else Segment(x, y2, y1);
    forall p | p in s
      ensures p in LinePoints(a, b)
    {
      var i := Distance(y1, p.y);
      assert p == LinePoint(a, b, i);
    }
  }

  // ----- The integer loop

  datatype Plotter = Plotter(at: Point, E: int)

  function Sign(a: int, b: int): int {
    if b > a then 1 else -1
  }

  /** One turn of the loop of `_ssd1306_line` for a line from `a` to `b`. */
  function Advance(a: Point, b: Point, s: Plotter): Plotter {
    var dx, dy := Distance(a.x, b.x), Distance(a.y, b.y);
    var sx, sy := Sign(a.x, b.x), Sign(a.y, b.y);
    var E := s.E + 2 * if dx > dy then dy else dx;
    if dx > dy then
      if E >= 0 then Plotter(Point(s.at.x + sx, s.at.y + sy), E - 2 * dx) else Plotter(Point(s.at.x + sx, s.at.y), E)
    else
      if E >= 0 then Plotter(Point(s.at.x + sx, s.at.y + sy), E - 2 * dy) else Plotter(Point(s.at.x, s.at.y + sy), E)
  }

  function PlotterAt(a: Point, b: Point, i: nat): Plotter {
    if i == 0 then Plotter(a, 0 - LineLength(a, b)) else Advance(a, b, PlotterAt(a, b, i - 1))
  }

  /** The pixels plotted in the first `n` turns, in order. */
  function Visited(a: Point, b: Point, n: nat): (path: seq<Point>)
    ensures |path| == n
  {
    if n == 0 then [] else Visited(a, b, n - 1) + [PlotterAt(a, b, n - 1).at]
  }

  /** One more turn, spelled out. */
  lemma PlotterNext(a: Point, b: Point, i: nat)
    ensures var s := PlotterAt(a, b, i);
            var t := PlotterAt(a, b, i + 1);
            var dx, dy := Distance(a.x, b.x), Distance(a.y, b.y);
            && Visited(a, b, i + 1) == Visited(a, b, i) + [s.at]
            && (dx > dy ==>
                  && t.at.x == s.at.x + Sign(a.x, b.x)
                  && (s.E + 2 * dy >= 0 ==> t.E == s.E + 2 * dy - 2 * dx && t.at.y == s.at.y + Sign(a.y, b.y))
                  && (s.E + 2 * dy < 0 ==> t.E == s.E + 2 * dy && t.at.y == s.at.y))
            && (dx <= dy ==>
                  && t.at.y == s.at.y + Sign(a.y, b.y)
                  && (s.E + 2 * dx >= 0 ==> t.E == s.E + 2 * dx - 2 * dy && t.at.x == s.at.x + Sign(a.x, b.x))
                  && (s.E + 2 * dx < 0 ==> t.E == s.E + 2 * dx && t.at.x == s.at.x))
  {
  }

  lemma PlotterStart(a: Point, b: Point)
    ensures PlotterAt(a, b, 0) == Plotter(a, 0 - LineLength(a, b)) && Visited(a, b, 0) == []
  {
  }

  /** The loop follows the closed form, with the rounding residue as its error term. */
  lemma {:induction false} PlotterFollowsLine(a: Point, b: Point, i: nat)
    requires i <= LineLength(a, b)
    ensures PlotterAt(a, b, i).at == LinePoint(a, b, i)
    ensures var dx, dy := Distance(a.x, b.x), Distance(a.y, b.y);
            var minor, major := if dx > dy then dy else dx, LineLength(a, b);
            PlotterAt(a, b, i).E == 2 * (i * minor - MinorOffset(minor, major, i) * major) - major
  {
    var dx, dy := Distance(a.x, b.x), Distance(a.y, b.y);
    var minor, major := if dx > dy then dy else dx, LineLength(a, b);
    if i == 0 {
      MinorOffsetRange(minor, major, 0);
    } else {
      PlotterFollowsLine(a, b, i - 1);
      ErrorStep(minor, major, i - 1, PlotterAt(a, b, i - 1).E);
    }
  }

  lemma {:induction false} VisitedAt(a: Point, b: Point, n: nat, i: nat)
    requires i < n <= LineLength(a, b) + 1
    ensures Visited(a, b, n)[i] == LinePoint(a, b, i)
  {
    if i == n - 1 {
      PlotterFollowsLine(a, b, i);
    } else {
      VisitedAt(a, b, n - 1, i);
    }
  }

  /** The whole loop plots the line, pixel by pixel in order, and nothing else. */
  lemma VisitedIsLine(a: Point, b: Point)
    ensures Visited(a, b, LineLength(a, b) + 1) == LinePath(a, b)
  {
    hide LinePoint, Visited, LineLength;
    var n := LineLength(a, b) + 1;
    forall i | 0 <= i < n
      ensures Visited(a, b, n)[i] == LinePath(a, b)[i]
    {
      VisitedAt(a, b, n, i);
    }
  }

  /** No plotted pixel leaves the box spanned by the ends. */
  lemma PlotterInBox(a: Point, b: Point, i: nat)
    requires i <= LineLength(a, b)
    ensures Between(a.x, PlotterAt(a, b, i).at.x, b.x) && Between(a.y, PlotterAt(a, b, i).at.y, b.y)
  {
    PlotterFollowsLine(a, b, i);
    LineEnds(a, b, i);
  }
}
