/**
  The walk shared by `_ssd1306_circle` and `_ssd1306_disc`: from (0, -r) round one quadrant to (r, 0),
  steering by the error term `(x + 1)^2 + (y + 1)^2 - r^2`.
 */
module Circles {
  import opened Cyclic
  import opened Lines

  /** A position of the walk, relative to the centre; `y` is never positive on the arc. */
  datatype Walk = Walk(x: int, y: int)

  /** How far a position is off the circle, in squared distance. */
  function Defect(r: int, w: Walk): int {
    w.x * w.x + w.y * w.y - r * r
  }

  function Err(r: int, w: Walk): int {
    (w.x + 1) * (w.x + 1) + (w.y + 1) * (w.y + 1) - r * r
  }

  /** The first test of the loop body: whether the column changes. */
  predicate StepsX(r: int, w: Walk) {
    Err(r, w) <= w.x
  }

  function AfterX(r: int, w: Walk): Walk {
    if StepsX(r, w) then Walk(w.x + 1, w.y) else w
  }

  /** The second test: whether the row changes, judged by the error before and after the first. */
  predicate StepsY(r: int, w: Walk) {
    Err(r, w) > w.y || Err(r, AfterX(r, w)) > AfterX(r, w).x
  }

  function Next(r: int, w: Walk): Walk {
    var v := AfterX(r, w);
    if StepsY(r, w) then Walk(v.x, v.y + 1) else v
  }

  function Max(a: int, b: int): int {
    if a > b then a else b
  }

  /** Inside the quadrant, and off the circle by no more than the larger coordinate. */
  predicate Accurate(r: int, w: Walk) {
    && 0 <= w.x <= r && -r <= w.y <= 0
    && -Max(w.x, -w.y) <= Defect(r, w) <= Max(w.x, -w.y)
  }

  lemma ErrFromDefect(r: int, w: Walk)
    ensures Err(r, w) == Defect(r, w) + 2 * w.x + 2 * w.y + 2
  {
  }

  lemma DefectSteps(r: int, w: Walk)
    ensures Defect(r, Walk(w.x + 1, w.y)) == Defect(r, w) + 2 * w.x + 1
    ensures Defect(r, Walk(w.x, w.y + 1)) == Defect(r, w) + 2 * w.y + 1
  {
  }

  /** Outside the radius the accuracy bound fails, so an accurate walk never leaves the quadrant. */
  lemma DefectBeyondRadius(r: int, w: Walk)
    requires r >= 1 && w.x == r + 1
    ensures Defect(r, w) > Max(w.x, -w.y)
  {
    assert w.x * w.x - r * r == 2 * r + 1;
    assert w.y * w.y >= -w.y by {
      if w.y < 0 { assert w.y * w.y == (-w.y - 1) * -w.y + -w.y; }
    }
  }

  /** Every step on the arc makes progress and keeps the walk accurate. */
  lemma NextAccurate(r: int, w: Walk)
    requires Accurate(r, w) && w.y < 0
    ensures Accurate(r, Next(r, w))
    ensures StepsX(r, w) || StepsY(r, w)
    ensures Next(r, w).x == w.x + (if StepsX(r, w) then 1 else 0)
    ensures Next(r, w).y == w.y + (if StepsY(r, w) then 1 else 0)
  {
    var v := AfterX(r, w);
    ErrFromDefect(r, w);
    ErrFromDefect(r, v);
    DefectSteps(r, w);
    DefectSteps(r, v);
    var n := Next(r, w);
    assert -Max(n.x, -n.y) <= Defect(r, n) <= Max(n.x, -n.y);
    if n.x > r {
      DefectBeyondRadius(r, n);
    }
  }

  /** The walk meets the horizontal axis at (r, 0) and nowhere else. */
  lemma WalkEnds(r: int, w: Walk)
    requires Accurate(r, w) && w.y == 0
    ensures w.x == r
  {
    var d := r - w.x;
    assert d * (r + w.x) == -Defect(r, w);
    if d >= 1 {
      MulAtLeast(d, r + w.x);
    }
  }

  lemma WalkStarts(r: nat)
    ensures Accurate(r, Walk(0, 0 - r)) && Err(r, Walk(0, 0 - r)) == 2 - 2 * r
  {
  }

  /** The loop body on the error variable: how it changes along with the position. */
  lemma ErrStep(r: int, w: Walk)
    ensures var err1 := if Err(r, w) <= w.x then Err(r, w) + 2 * (w.x + 1) + 1 else Err(r, w);
            var x1 := if Err(r, w) <= w.x then w.x + 1 else w.x;
            var down := Err(r, w) > w.y || err1 > x1;
            && (StepsX(r, w) <==> Err(r, w) <= w.x)
            && Next(r, w) == Walk(x1, if down then w.y + 1 else w.y)
            && Err(r, Next(r, w)) == if down then err1 + 2 * (w.y + 1) + 1 else err1
  {
    var v := AfterX(r, w);
    ErrFromDefect(r, w);
    ErrFromDefect(r, v);
    DefectSteps(r, w);
    DefectSteps(r, v);
    ErrFromDefect(r, Next(r, w));
  }

  // ----- The circle

  /** The positions plotted from `w` on, stopping before the axis. */
  function ArcFrom(r: nat, w: Walk): (arc: seq<Walk>)
    requires Accurate(r, w)
    ensures |arc| >= 1 && arc[0] == w
    decreases r - w.x - w.y
  {
    if w.y == 0 then [w]
    else
      NextAccurate(r, w);
      if Next(r, w).y < 0 then [w] + ArcFrom(r, Next(r, w)) else [w]
  }

  function Arc(r: nat): (arc: seq<Walk>)
    ensures |arc| >= 1 && arc[0] == Walk(0, 0 - r)
  {
    WalkStarts(r);
    ArcFrom(r, Walk(0, 0 - r))
  }

  /** Every plotted position is accurate; for a positive radius none lies on the axis yet. */
  lemma {:induction false} ArcFromAccurate(r: nat, w: Walk, i: nat)
    requires Accurate(r, w) && i < |ArcFrom(r, w)|
    ensures Accurate(r, ArcFrom(r, w)[i])
    ensures w.y < 0 ==> ArcFrom(r, w)[i].y < 0
    decreases i
  {
    if i > 0 {
      NextAccurate(r, w);
      ArcFromAccurate(r, Next(r, w), i - 1);
    }
  }

  /** Consecutive positions are one step apart, and one step past the last lies (r, 0). */
  lemma {:induction false} ArcFromConnected(r: nat, w: Walk, i: nat)
    requires Accurate(r, w) && w.y < 0 && i < |ArcFrom(r, w)|
    ensures var next := if i + 1 < |ArcFrom(r, w)| then ArcFrom(r, w)[i + 1] else Walk(r, 0);
            next == Next(r, ArcFrom(r, w)[i])
    decreases i
  {
    NextAccurate(r, w);
    if i > 0 {
      ArcFromConnected(r, Next(r, w), i - 1);
    } else if Next(r, w).y == 0 {
      WalkEnds(r, Next(r, w));
    }
  }

  // The four bits of the `opt` argument.
  const UPPER_RIGHT: bv32 := 0x01
  const UPPER_LEFT: bv32 := 0x02
  const LOWER_LEFT: bv32 := 0x04
  const LOWER_RIGHT: bv32 := 0x08
  const DRAW_ALL: bv32 := 0x0F

  predicate Drawn(opt: bv32, quadrant: bv32) {
    opt & quadrant == quadrant
  }

  /** The bit that enables quadrant `q`, counted from the upper left against the clock. */
  function QuadrantBit(q: nat): bv32
    requires q < 4
  {
    match q
    case 0 => UPPER_LEFT
    case 1 => LOWER_LEFT
    case 2 => LOWER_RIGHT
    case _ => UPPER_RIGHT
  }

  /** Position `w` of the walk turned by `q` quarters: the pixel plotted in one quadrant. */
  function Quadrant(c: Point, w: Walk, q: nat): Point
    requires q < 4
  {
    match q
    case 0 => Point(c.x - w.x, c.y + w.y)
    case 1 => Point(c.x + w.y, c.y + w.x)
    case 2 => Point(c.x + w.x, c.y - w.y)
    case _ => Point(c.x - w.y, c.y - w.x)
  }

  /** The pixels plotted for one position of the walk. */
  function PlottedAt(c: Point, w: Walk, opt: bv32): set<Point> {
    set q | 0 <= q < 4 && Drawn(opt, QuadrantBit(q)) :: Quadrant(c, w, q)
  }

  function PathIf(b: bool, p: Point): seq<Point> {
    if b then [p] else []
  }

  /** The same pixels in the order of the four tests of the loop body. */
  function PathAt(c: Point, w: Walk, opt: bv32): seq<Point> {
    PathIf(Drawn(opt, UPPER_LEFT), Quadrant(c, w, 0)) + PathIf(Drawn(opt, UPPER_RIGHT), Quadrant(c, w, 3)) +
    PathIf(Drawn(opt, LOWER_RIGHT), Quadrant(c, w, 2)) + PathIf(Drawn(opt, LOWER_LEFT), Quadrant(c, w, 1))
  }

  lemma PathAtPoints(c: Point, w: Walk, opt: bv32)
    ensures Points(PathAt(c, w, opt)) == PlottedAt(c, w, opt)
  {
    hide Drawn, Quadrant;
    assert QuadrantBit(0) == UPPER_LEFT && QuadrantBit(1) == LOWER_LEFT;
    assert QuadrantBit(2) == LOWER_RIGHT && QuadrantBit(3) == UPPER_RIGHT;
  }

  function PlottedAlong(c: Point, arc: seq<Walk>, opt: bv32): set<Point> {
    if arc == [] then {} else PlottedAt(c, arc[0], opt) + PlottedAlong(c, arc[1..], opt)
  }

  function CirclePoints(c: Point, r: nat, opt: bv32): set<Point> {
    PlottedAlong(c, Arc(r), opt)
  }

  function PathAlong(c: Point, arc: seq<Walk>, opt: bv32): seq<Point> {
    if arc == [] then [] else PathAt(c, arc[0], opt) + PathAlong(c, arc[1..], opt)
  }

  /** The pixels of a circle in the order in which the loop plots them. */
  function CirclePath(c: Point, r: nat, opt: bv32): seq<Point> {
    PathAlong(c, Arc(r), opt)
  }

  lemma {:induction false} PathAlongPoints(c: Point, arc: seq<Walk>, opt: bv32)
    ensures Points(PathAlong(c, arc, opt)) == PlottedAlong(c, arc, opt)
  {
    hide PathAt, PlottedAt;
    if arc != [] {
      PathAlongPoints(c, arc[1..], opt);
      PathAtPoints(c, arc[0], opt);
    }
  }

  lemma CirclePathPoints(c: Point, r: nat, opt: bv32)
    ensures Points(CirclePath(c, r, opt)) == CirclePoints(c, r, opt)
  {
    PathAlongPoints(c, Arc(r), opt);
  }

  /** The loop over the arc, one turn at a time. */
  lemma ArcFromStep(c: Point, r: nat, w: Walk, opt: bv32)
    requires Accurate(r, w)
    ensures w.y < 0 ==> Accurate(r, Next(r, w))
    ensures PathAlong(c, ArcFrom(r, w), opt) == PathAt(c, w, opt) +
            if w.y < 0 && Next(r, w).y < 0 then PathAlong(c, ArcFrom(r, Next(r, w)), opt) else []
  {
    hide PathAt;
    if w.y < 0 {
      NextAccurate(r, w);
    }
  }

  /** `path` is what the loop has plotted when it comes to `w`. */
  predicate ArcLeft(c: Point, r: nat, opt: bv32, path: seq<Point>, w: Walk)
    requires Accurate(r, w)
  {
    path + PathAlong(c, ArcFrom(r, w), opt) == CirclePath(c, r, opt)
  }

  lemma ArcBegins(c: Point, r: nat, opt: bv32)
    ensures Accurate(r, Walk(0, 0 - r)) && ArcLeft(c, r, opt, [], Walk(0, 0 - r))
  {
    WalkStarts(r);
  }

  lemma ArcTurn(c: Point, r: nat, opt: bv32, path: seq<Point>, w: Walk)
    requires Accurate(r, w) && ArcLeft(c, r, opt, path, w)
    ensures path + PathAt(c, w, opt) <= CirclePath(c, r, opt)
    ensures w.y < 0 ==> Accurate(r, Next(r, w)) && 0 < r - w.x - w.y
    ensures w.y < 0 && Next(r, w).y < 0 ==> ArcLeft(c, r, opt, path + PathAt(c, w, opt), Next(r, w))
    ensures w.y >= 0 || Next(r, w).y >= 0 ==> path + PathAt(c, w, opt) == CirclePath(c, r, opt)
  {
    hide PathAt, PathAlong, CirclePath, ArcFrom, Next;
    ArcFromStep(c, r, w, opt);
  }

  lemma {:induction false} PlottedAlongMember(c: Point, arc: seq<Walk>, opt: bv32, p: Point)
    ensures p in PlottedAlong(c, arc, opt) <==> exists i :: 0 <= i < |arc| && p in PlottedAt(c, arc[i], opt)
  {
    if arc != [] {
      PlottedAlongMember(c, arc[1..], opt, p);
      if i :| 0 <= i < |arc| && p in PlottedAt(c, arc[i], opt) {
        if i > 0 {
          assert arc[1..][i - 1] == arc[i];
        }
      }
    }
  }

  function Abs(a: int): nat {
    if a < 0 then -a else a
  }

  /** Squared distance of a pixel from the centre. */
  function Norm(c: Point, p: Point): int {
    (p.x - c.x) * (p.x - c.x) + (p.y - c.y) * (p.y - c.y)
  }

  lemma QuadrantNorm(c: Point, r: int, w: Walk, q: nat)
    requires q < 4 && w.x >= 0 && w.y <= 0
    ensures Norm(c, Quadrant(c, w, q)) - r * r == Defect(r, w)
    ensures Max(Abs(Quadrant(c, w, q).x - c.x), Abs(Quadrant(c, w, q).y - c.y)) == Max(w.x, -w.y)
  {
  }

  lemma MaxBound(a: int, b: int, m: int)
    requires a <= m && b <= m
    ensures Max(a, b) <= m
  {
  }

  lemma CircleBound(c: Point, r: nat, opt: bv32, p: Point)
    requires p in CirclePoints(c, r, opt)
    ensures var m := Max(Abs(p.x - c.x), Abs(p.y - c.y)); r * r - m <= Norm(c, p) <= r * r + m && m <= r
  {
    hide Norm, Defect, Quadrant, Drawn, PlottedAlong, ArcFrom, Max, Abs;
    PlottedAlongMember(c, Arc(r), opt, p);
    var i :| 0 <= i < |Arc(r)| && p in PlottedAt(c, Arc(r)[i], opt);
    var w := Arc(r)[i];
    var q :| 0 <= q < 4 && p == Quadrant(c, w, q);
    WalkStarts(r);
    ArcFromAccurate(r, Walk(0, 0 - r), i);
    QuadrantNorm(c, r, w, q);
    MaxBound(w.x, -w.y, r);
  }

  /** Every pixel of a circle is off the true radius by at most its larger coordinate, in every quadrant. */
  lemma CircleAccurate(c: Point, r: nat, opt: bv32, p: Point)
    requires p in CirclePoints(c, r, opt)
    ensures var dx, dy := if p.x < c.x then c.x - p.x else p.x - c.x, if p.y < c.y then c.y - p.y else p.y - c.y;
            var m := if dx > dy then dx else dy;
            r * r - m <= (p.x - c.x) * (p.x - c.x) + (p.y - c.y) * (p.y - c.y) <= r * r + m && m <= r
  {
    hide CirclePoints;
    CircleBound(c, r, opt, p);
    assert Norm(c, p) == (p.x - c.x) * (p.x - c.x) + (p.y - c.y) * (p.y - c.y);
  }

  /** A quarter turn about `c`. */
  function Turn(c: Point, p: Point): Point {
    Point(c.x - (p.y - c.y), c.y + (p.x - c.x))
  }

  lemma QuadrantTurn(c: Point, w: Walk, q: nat)
    requires q < 4
    ensures Turn(c, Quadrant(c, w, q)) == Quadrant(c, w, if q == 0 then 3 else q - 1)
  {
  }

  lemma AllDrawn(q: nat)
    requires q < 4
    ensures Drawn(DRAW_ALL, QuadrantBit(q))
  {
  }

  /** A full circle looks the same after a quarter turn. */
  lemma CircleTurns(c: Point, r: nat, p: Point)
    requires p in CirclePoints(c, r, DRAW_ALL)
    ensures Turn(c, p) in CirclePoints(c, r, DRAW_ALL)
  {
    PlottedAlongMember(c, Arc(r), DRAW_ALL, p);
    var i :| 0 <= i < |Arc(r)| && p in PlottedAt(c, Arc(r)[i], DRAW_ALL);
    var w := Arc(r)[i];
    var q :| 0 <= q < 4 && p == Quadrant(c, w, q);
    var q' := if q == 0 then 3 else q - 1;
    QuadrantTurn(c, w, q);
    AllDrawn(q');
    assert Quadrant(c, w, q') in PlottedAt(c, w, DRAW_ALL);
    PlottedAlongMember(c, Arc(r), DRAW_ALL, Turn(c, p));
  }

  lemma StepTouches(c: Point, r: nat, w: Walk, q: nat)
    requires q < 4 && Accurate(r, w) && w.y < 0
    ensures Neighbours(Quadrant(c, w, q), Quadrant(c, Next(r, w), q))
  {
    NextAccurate(r, w);
  }

  lemma QuadrantsMeet(c: Point, r: nat, q: nat)
    requires q < 4
    ensures Quadrant(c, Walk(r, 0), q) == Quadrant(c, Walk(0, 0 - r), if q == 3 then 0 else q + 1)
  {
  }

  /** The pixel that follows pixel `j` of quadrant `q`: the next one, or the first of the next quadrant. */
  function Successor(c: Point, r: nat, q: nat, j: nat): Point
    requires q < 4 && j < |Arc(r)|
  {
    if j + 1 < |Arc(r)| then Quadrant(c, Arc(r)[j + 1], q)
    else Quadrant(c, Arc(r)[0], if q == 3 then 0 else q + 1)
  }

  /** The four quadrants form one closed ring: every pixel touches its successor. */
  lemma RingClosed(c: Point, r: nat, q: nat, j: nat)
    requires r >= 1 && q < 4 && j < |Arc(r)|
    ensures Neighbours(Quadrant(c, Arc(r)[j], q), Successor(c, r, q, j))
  {
    WalkStarts(r);
    ArcFromAccurate(r, Walk(0, 0 - r), j);
    ArcFromConnected(r, Walk(0, 0 - r), j);
    StepTouches(c, r, Arc(r)[j], q);
    QuadrantsMeet(c, r, q);
  }

  /** The ring visits exactly the pixels of the circle. */
  lemma RingIsCircle(c: Point, r: nat, p: Point)
    ensures p in CirclePoints(c, r, DRAW_ALL)
       <==> exists q, j :: 0 <= q < 4 && 0 <= j < |Arc(r)| && p == Quadrant(c, Arc(r)[j], q)
  {
    PlottedAlongMember(c, Arc(r), DRAW_ALL, p);
    if q, j :| 0 <= q < 4 && 0 <= j < |Arc(r)| && p == Quadrant(c, Arc(r)[j], q) {
      AllDrawn(q);
      assert p in PlottedAt(c, Arc(r)[j], DRAW_ALL);
    }
  }

  // ----- No pixel of the ring twice

  /** The walk moves away from its start at every step. */
  lemma {:induction false} ArcFromAdvances(r: nat, w: Walk, i: nat, j: nat)
    requires Accurate(r, w) && w.y < 0 && i < j < |ArcFrom(r, w)|
    ensures ArcFrom(r, w)[i].x + ArcFrom(r, w)[i].y < ArcFrom(r, w)[j].x + ArcFrom(r, w)[j].y
    decreases j
  {
    hide Accurate, StepsX, StepsY, Next;
    ArcFromConnected(r, w, j - 1);
    ArcFromAccurate(r, w, j - 1);
    NextAccurate(r, ArcFrom(r, w)[j - 1]);
    if i < j - 1 {
      ArcFromAdvances(r, w, i, j - 1);
    }
  }

  /** A pixel above the axis tells both its quadrant and its position. */
  lemma QuadrantDetermines(c: Point, v: Walk, w: Walk, p: nat, q: nat)
    requires p < 4 && q < 4 && v.x >= 0 && v.y < 0 && w.x >= 0 && w.y < 0
    requires Quadrant(c, v, p) == Quadrant(c, w, q)
    ensures p == q && v == w
  {
  }

  /** The ring is simple: different places on it are different pixels. */
  lemma RingSimple(c: Point, r: nat, p: nat, i: nat, q: nat, j: nat)
    requires r >= 1 && p < 4 && q < 4 && i < |Arc(r)| && j < |Arc(r)| && (p != q || i != j)
    ensures Quadrant(c, Arc(r)[i], p) != Quadrant(c, Arc(r)[j], q)
  {
    hide Quadrant, StepsX, StepsY, Next, ArcFrom;
    var start := Walk(0, 0 - r);
    WalkStarts(r);
    ArcFromAccurate(r, start, i);
    ArcFromAccurate(r, start, j);
    if i < j {
      ArcFromAdvances(r, start, i, j);
    } else if j < i {
      ArcFromAdvances(r, start, j, i);
    }
    if Quadrant(c, Arc(r)[i], p) == Quadrant(c, Arc(r)[j], q) {
      QuadrantDetermines(c, Arc(r)[i], Arc(r)[j], p, q);
    }
  }

  lemma FourPixels(c: Point, w: Walk)
    requires w.x >= 0 && w.y < 0
    ensures |PlottedAt(c, w, DRAW_ALL)| == 4
  {
    AllDrawn(0);
    AllDrawn(1);
    AllDrawn(2);
    AllDrawn(3);
    hide Drawn;
    assert PlottedAt(c, w, DRAW_ALL) == {Quadrant(c, w, 0), Quadrant(c, w, 1), Quadrant(c, w, 2), Quadrant(c, w, 3)};
  }

  lemma NotPlottedAgain(c: Point, r: nat, w: Walk, p: Point)
    requires Accurate(r, w) && w.y < 0 && p in PlottedAt(c, w, DRAW_ALL)
    requires Accurate(r, Next(r, w)) && Next(r, w).y < 0
    ensures p !in PlottedAlong(c, ArcFrom(r, Next(r, w)), DRAW_ALL)
  {
    hide Quadrant, Drawn, StepsX, StepsY, Next;
    var rest := ArcFrom(r, Next(r, w));
    if p in PlottedAlong(c, rest, DRAW_ALL) {
      PlottedAlongMember(c, rest, DRAW_ALL, p);
      var i :| 0 <= i < |rest| && p in PlottedAt(c, rest[i], DRAW_ALL);
      var q :| 0 <= q < 4 && p == Quadrant(c, w, q);
      var q' :| 0 <= q' < 4 && p == Quadrant(c, rest[i], q');
      ArcFromAccurate(r, Next(r, w), i);
      ArcFromAdvances(r, w, 0, i + 1);
      QuadrantDetermines(c, w, rest[i], q, q');
    }
  }

  lemma {:induction false} ArcSize(c: Point, r: nat, w: Walk)
    requires Accurate(r, w) && w.y < 0
    ensures |PlottedAlong(c, ArcFrom(r, w), DRAW_ALL)| == 4 * |ArcFrom(r, w)|
    decreases r - w.x - w.y
  {
    var here := PlottedAt(c, w, DRAW_ALL);
    FourPixels(c, w);
    NextAccurate(r, w);
    if Next(r, w).y < 0 {
      var rest := ArcFrom(r, Next(r, w));
      ArcSize(c, r, Next(r, w));
      forall p | p in here
        ensures p !in PlottedAlong(c, rest, DRAW_ALL)
      {
        NotPlottedAgain(c, r, w, p);
      }
      assert ArcFrom(r, w) == [w] + rest && ([w] + rest)[1..] == rest;
      assert |here + PlottedAlong(c, rest, DRAW_ALL)| == |here| + |PlottedAlong(c, rest, DRAW_ALL)|;
    }
  }

  /** A full circle has four times as many pixels as one quadrant, none of them shared. */
  lemma CircleSize(c: Point, r: nat)
    requires r >= 1
    ensures |CirclePoints(c, r, DRAW_ALL)| == 4 * |Arc(r)|
  {
    WalkStarts(r);
    ArcSize(c, r, Walk(0, 0 - r));
  }

  // ----- The disc

  /** The heights of the columns still to be filled; `changeX` says the column of `w` is one of them. */
  function HeightsFrom(r: nat, w: Walk, changeX: bool): (h: seq<nat>)
    requires Accurate(r, w)
    ensures |h| == r - w.x + (if changeX then 1 else 0)
    decreases r - w.x - w.y
  {
    var here := if changeX then [-w.y] else [];
    if w.y == 0 then
      WalkEnds(r, w);
      here
    else
      NextAccurate(r, w);
      here + HeightsFrom(r, Next(r, w), StepsX(r, w))
  }

  /** The half-height of every column of a disc, from its centre outwards. */
  function Heights(r: nat): (h: seq<nat>)
    ensures |h| == r + 1
  {
    WalkStarts(r);
    HeightsFrom(r, Walk(0, 0 - r), true)
  }

  lemma {:induction false} HeightsFromAccurate(r: nat, w: Walk, changeX: bool, i: nat)
    requires Accurate(r, w) && i < |HeightsFrom(r, w, changeX)|
    ensures var x := w.x + i + (if changeX then 0 else 1);
            var h: int := HeightsFrom(r, w, changeX)[i];
            Accurate(r, Walk(x, -h))
    decreases r - w.x - w.y
  {
    if w.y < 0 && !(changeX && i == 0) {
      NextAccurate(r, w);
      HeightsFromAccurate(r, Next(r, w), StepsX(r, w), if changeX then i - 1 else i);
    }
    if w.y == 0 {
      WalkEnds(r, w);
    }
  }

  lemma HeightAccurate(r: nat, x: nat)
    requires x <= r
    ensures var h: int := Heights(r)[x]; Accurate(r, Walk(x, -h))
  {
    WalkStarts(r);
    HeightsFromAccurate(r, Walk(0, 0 - r), true, x);
  }

  function SegmentIf(b: bool, x: int, lo: int, hi: int): set<Point> {
    if b then Segment(x, lo, hi) else {}
  }

  /** What the four lines of one column fill. */
  function FilledAt(c: Point, w: Walk, opt: bv32): set<Point> {
    SegmentIf(Drawn(opt, LOWER_LEFT), c.x - w.x, c.y, c.y - w.y) +
    SegmentIf(Drawn(opt, UPPER_LEFT), c.x - w.x, c.y + w.y, c.y) +
    SegmentIf(Drawn(opt, LOWER_RIGHT), c.x + w.x, c.y, c.y - w.y) +
    SegmentIf(Drawn(opt, UPPER_RIGHT), c.x + w.x, c.y + w.y, c.y)
  }

  function FilledFrom(c: Point, r: nat, w: Walk, changeX: bool, opt: bv32): set<Point>
    requires Accurate(r, w)
    decreases r - w.x - w.y
  {
    (if changeX then FilledAt(c, w, opt) else {}) +
    if w.y == 0 then {}
    else
      NextAccurate(r, w);
      FilledFrom(c, r, Next(r, w), StepsX(r, w), opt)
  }

  /** The loop over the columns, one turn at a time. */
  lemma FilledFromStep(c: Point, r: nat, w: Walk, changeX: bool, opt: bv32)
    requires Accurate(r, w)
    ensures w.y < 0 ==> Accurate(r, Next(r, w))
    ensures FilledFrom(c, r, w, changeX, opt) ==
            (if changeX then FilledAt(c, w, opt) else {}) +
            if w.y < 0 then FilledFrom(c, r, Next(r, w), StepsX(r, w), opt) else {}
  {
    if w.y < 0 {
      NextAccurate(r, w);
    }
  }

  /** The loop guard `y <= 0` holds after a turn exactly when the turn began above the axis. */
  lemma DiscLoopGuard(r: nat, w: Walk)
    requires Accurate(r, w)
    ensures Next(r, w).y <= 0 <==> w.y < 0
    ensures w.y < 0 ==> r - Next(r, w).x - Next(r, w).y < r - w.x - w.y
    ensures 0 <= r - w.x - w.y
  {
    if w.y == 0 {
      WalkEnds(r, w);
      ErrFromDefect(r, w);
      ErrStep(r, w);
    } else {
      NextAccurate(r, w);
    }
  }

  function DiscPoints(c: Point, r: nat, opt: bv32): set<Point> {
    WalkStarts(r);
    FilledFrom(c, r, Walk(0, 0 - r), true, opt)
  }

  /** The turns that fill a column, from the centre outwards. */
  function TurnsFrom(r: nat, w: Walk, changeX: bool): (turns: seq<Walk>)
    requires Accurate(r, w)
    decreases r - w.x - w.y
  {
    var here := if changeX then [w] else [];
    if w.y == 0 then here
    else
      NextAccurate(r, w);
      here + TurnsFrom(r, Next(r, w), StepsX(r, w))
  }

  function FilledAlong(c: Point, turns: seq<Walk>, opt: bv32): set<Point> {
    if turns == [] then {} else FilledAt(c, turns[0], opt) + FilledAlong(c, turns[1..], opt)
  }

  /** The columns a disc fills, from the centre outwards, as the loop comes to them. */
  function Turns(r: nat): seq<Walk> {
    WalkStarts(r);
    TurnsFrom(r, Walk(0, 0 - r), true)
  }

  lemma TurnsStep(r: nat, w: Walk, changeX: bool)
    requires Accurate(r, w) && w.y < 0
    ensures Accurate(r, Next(r, w)) && r - Next(r, w).x - Next(r, w).y < r - w.x - w.y
    ensures TurnsFrom(r, w, changeX) == (if changeX then [w] else []) + TurnsFrom(r, Next(r, w), StepsX(r, w))
    ensures HeightsFrom(r, w, changeX) == (if changeX then [-w.y] else []) + HeightsFrom(r, Next(r, w), StepsX(r, w))
    ensures StepsX(r, w) ==> Next(r, w).x == w.x + 1
    ensures !StepsX(r, w) ==> Next(r, w).x == w.x
  {
    NextAccurate(r, w);
  }

  lemma {:induction false} FilledTurnByTurn(c: Point, r: nat, w: Walk, changeX: bool, opt: bv32)
    requires Accurate(r, w)
    ensures FilledFrom(c, r, w, changeX, opt) == FilledAlong(c, TurnsFrom(r, w, changeX), opt)
    decreases r - w.x - w.y
  {
    assert w.y <= 0;
    hide FilledAt, Accurate, Next, StepsX;
    FilledFromStep(c, r, w, changeX, opt);
    if w.y < 0 {
      hide TurnsFrom;
      var rest := TurnsFrom(r, Next(r, w), StepsX(r, w));
      TurnsStep(r, w, changeX);
      FilledTurnByTurn(c, r, Next(r, w), StepsX(r, w), opt);
      assert [w] + rest == TurnsFrom(r, w, true) && ([w] + rest)[1..] == rest;
      assert [] + rest == rest;
    }
  }

  /** Turn `i` of those still to come fills the `i`-th of the columns still to be filled. */
  lemma {:induction false} TurnsAreColumns(r: nat, w: Walk, changeX: bool, i: nat)
    requires Accurate(r, w)
    ensures |TurnsFrom(r, w, changeX)| == |HeightsFrom(r, w, changeX)|
    ensures i < |TurnsFrom(r, w, changeX)| ==>
              var turn := TurnsFrom(r, w, changeX)[i];
              turn.x == w.x + i + (if changeX then 0 else 1) && turn.y + HeightsFrom(r, w, changeX)[i] == 0
    decreases r - w.x - w.y
  {
    assert w.y <= 0;
    hide Accurate, Next, StepsX;
    if w.y < 0 {
      hide TurnsFrom, HeightsFrom;
      TurnsStep(r, w, changeX);
      TurnsAreColumns(r, Next(r, w), StepsX(r, w), if changeX && i > 0 then i - 1 else i);
    }
  }

  // ----- The disc in the order in which it is drawn

  function LineIf(b: bool, x: int, y1: int, y2: int): seq<Point> {
    if b then LinePath(Point(x, y1), Point(x, y2)) else []
  }

  /** The four lines of one column, pixel by pixel. */
  function LinesAt(c: Point, w: Walk, opt: bv32): seq<Point> {
    LineIf(Drawn(opt, LOWER_LEFT), c.x - w.x, c.y - w.y, c.y) +
    LineIf(Drawn(opt, UPPER_LEFT), c.x - w.x, c.y, c.y + w.y) +
    LineIf(Drawn(opt, LOWER_RIGHT), c.x + w.x, c.y - w.y, c.y) +
    LineIf(Drawn(opt, UPPER_RIGHT), c.x + w.x, c.y, c.y + w.y)
  }

  function LinesFrom(c: Point, r: nat, w: Walk, changeX: bool, opt: bv32): seq<Point>
    requires Accurate(r, w)
    decreases r - w.x - w.y
  {
    (if changeX then LinesAt(c, w, opt) else []) +
    if w.y == 0 then []
    else
      NextAccurate(r, w);
      LinesFrom(c, r, Next(r, w), StepsX(r, w), opt)
  }

  /** The pixels of a disc in the order in which the loop plots them, as often as it does. */
  function DiscPath(c: Point, r: nat, opt: bv32): seq<Point> {
    WalkStarts(r);
    LinesFrom(c, r, Walk(0, 0 - r), true, opt)
  }

  lemma LineIfPoints(b: bool, x: int, y1: int, y2: int)
    requires y1 >= y2
    ensures Points(LineIf(b, x, y1, y2)) == SegmentIf(b, x, y2, y1)
  {
    VerticalLine(x, y1, y2);
    LinePathPoints(Point(x, y1), Point(x, y2));
  }

  lemma LinesAtPoints(c: Point, w: Walk, opt: bv32)
    requires w.y <= 0
    ensures Points(LinesAt(c, w, opt)) == FilledAt(c, w, opt)
  {
    hide LineIf, SegmentIf, Drawn;
    LineIfPoints(Drawn(opt, LOWER_LEFT), c.x - w.x, c.y - w.y, c.y);
    LineIfPoints(Drawn(opt, UPPER_LEFT), c.x - w.x, c.y, c.y + w.y);
    LineIfPoints(Drawn(opt, LOWER_RIGHT), c.x + w.x, c.y - w.y, c.y);
    LineIfPoints(Drawn(opt, UPPER_RIGHT), c.x + w.x, c.y, c.y + w.y);
  }

  lemma LinesFromStep(c: Point, r: nat, w: Walk, changeX: bool, opt: bv32)
    requires Accurate(r, w)
    ensures w.y < 0 ==> Accurate(r, Next(r, w))
    ensures LinesFrom(c, r, w, changeX, opt) ==
            (if changeX then LinesAt(c, w, opt) else []) +
            if w.y < 0 then LinesFrom(c, r, Next(r, w), StepsX(r, w), opt) else []
  {
    hide LinesAt;
    if w.y < 0 {
      NextAccurate(r, w);
    }
  }

  /** `path` is what the loop has plotted when it comes to `w`. */
  predicate LinesLeft(c: Point, r: nat, opt: bv32, path: seq<Point>, w: Walk, changeX: bool)
    requires Accurate(r, w)
  {
    path + LinesFrom(c, r, w, changeX, opt) == DiscPath(c, r, opt)
  }

  lemma LinesBegin(c: Point, r: nat, opt: bv32)
    ensures Accurate(r, Walk(0, 0 - r)) && LinesLeft(c, r, opt, [], Walk(0, 0 - r), true)
  {
    WalkStarts(r);
  }

  lemma LinesTurn(c: Point, r: nat, opt: bv32, path: seq<Point>, w: Walk, changeX: bool)
    requires Accurate(r, w) && LinesLeft(c, r, opt, path, w, changeX)
    ensures var now := path + if changeX then LinesAt(c, w, opt) else [];
            && now <= DiscPath(c, r, opt)
            && (w.y < 0 ==> Accurate(r, Next(r, w)) && LinesLeft(c, r, opt, now, Next(r, w), StepsX(r, w)))
            && (w.y >= 0 ==> now == DiscPath(c, r, opt))
  {
    hide LinesAt, LinesFrom, DiscPath, Next, StepsX;
    LinesFromStep(c, r, w, changeX, opt);
  }

  lemma {:induction false} LinesFromPoints(c: Point, r: nat, w: Walk, changeX: bool, opt: bv32)
    requires Accurate(r, w)
    ensures Points(LinesFrom(c, r, w, changeX, opt)) == FilledFrom(c, r, w, changeX, opt)
    decreases r - w.x - w.y
  {
    assert w.y <= 0;
    hide LinesAt, FilledAt, LinesFrom, FilledFrom, Accurate, Next, StepsX;
    LinesFromStep(c, r, w, changeX, opt);
    FilledFromStep(c, r, w, changeX, opt);
    LinesAtPoints(c, w, opt);
    if w.y < 0 {
      DiscLoopGuard(r, w);
      LinesFromPoints(c, r, Next(r, w), StepsX(r, w), opt);
    }
  }

  function LinesAlong(c: Point, turns: seq<Walk>, opt: bv32): seq<Point> {
    if turns == [] then [] else LinesAt(c, turns[0], opt) + LinesAlong(c, turns[1..], opt)
  }

  lemma {:induction false} LinesTurnByTurn(c: Point, r: nat, w: Walk, changeX: bool, opt: bv32)
    requires Accurate(r, w)
    ensures LinesFrom(c, r, w, changeX, opt) == LinesAlong(c, TurnsFrom(r, w, changeX), opt)
    decreases r - w.x - w.y
  {
    assert w.y <= 0;
    hide LinesAt, Accurate, Next, StepsX;
    LinesFromStep(c, r, w, changeX, opt);
    if w.y < 0 {
      hide TurnsFrom, LinesFrom;
      var rest := TurnsFrom(r, Next(r, w), StepsX(r, w));
      TurnsStep(r, w, changeX);
      LinesTurnByTurn(c, r, Next(r, w), StepsX(r, w), opt);
      assert [w] + rest == TurnsFrom(r, w, true) && ([w] + rest)[1..] == rest;
      assert [] + rest == rest;
    }
  }

  /**
    The loop draws the columns 0 to r of each half exactly once each, in that order: its pixels, in order, are
    the lines of one turn after the other, and turn `x` is column `x` at its full height.
   */
  lemma EachColumnOnce(c: Point, r: nat, opt: bv32)
    ensures DiscPath(c, r, opt) == LinesAlong(c, Turns(r), opt)
    ensures DiscPoints(c, r, opt) == FilledAlong(c, Turns(r), opt)
    ensures |Turns(r)| == r + 1
    ensures forall x :: 0 <= x <= r ==> Turns(r)[x].x == x && Turns(r)[x].y + Heights(r)[x] == 0
  {
    hide LinesFrom, LinesAlong, FilledFrom, FilledAlong, TurnsFrom, HeightsFrom, Accurate;
    WalkStarts(r);
    LinesTurnByTurn(c, r, Walk(0, 0 - r), true, opt);
    FilledTurnByTurn(c, r, Walk(0, 0 - r), true, opt);
    TurnsAreColumns(r, Walk(0, 0 - r), true, 0);
    forall x | 0 <= x <= r
      ensures Turns(r)[x].x == x && Turns(r)[x].y + Heights(r)[x] == 0
    {
      TurnsAreColumns(r, Walk(0, 0 - r), true, x);
    }
  }

  lemma DiscPathPoints(c: Point, r: nat, opt: bv32)
    ensures Points(DiscPath(c, r, opt)) == DiscPoints(c, r, opt)
  {
    WalkStarts(r);
    LinesFromPoints(c, r, Walk(0, 0 - r), true, opt);
  }

  /** Whether a pixel lies in (or on the border of) a quadrant that is drawn. */
  predicate InDrawnQuadrant(c: Point, p: Point, opt: bv32) {
    || (Drawn(opt, LOWER_LEFT) && p.x <= c.x && p.y >= c.y)
    || (Drawn(opt, UPPER_LEFT) && p.x <= c.x && p.y <= c.y)
    || (Drawn(opt, LOWER_RIGHT) && p.x >= c.x && p.y >= c.y)
    || (Drawn(opt, UPPER_RIGHT) && p.x >= c.x && p.y <= c.y)
  }

  lemma FilledAtMember(c: Point, w: Walk, opt: bv32, p: Point)
    requires w.x >= 0 && w.y <= 0
    ensures p in FilledAt(c, w, opt)
       <==> InDrawnQuadrant(c, p, opt) && Abs(p.x - c.x) == w.x && Abs(p.y - c.y) <= -w.y
  {
    assert p == Point(p.x, p.y);
  }

  /** Whether the columns still to be filled cover a pixel `dx` columns and `dy` rows from the centre. */
  predicate Covered(r: nat, w: Walk, changeX: bool, dx: nat, dy: nat)
    requires Accurate(r, w)
  {
    var first := w.x + (if changeX then 0 else 1);
    first <= dx <= r && dy <= HeightsFrom(r, w, changeX)[dx - first]
  }

  lemma CoveredStep(r: nat, w: Walk, changeX: bool, dx: nat, dy: nat)
    requires Accurate(r, w) && w.y < 0
    ensures Accurate(r, Next(r, w))
    ensures Covered(r, w, changeX, dx, dy)
       <==> (changeX && dx == w.x && dy <= -w.y) || Covered(r, Next(r, w), StepsX(r, w), dx, dy)
  {
    NextAccurate(r, w);
  }

  lemma {:induction false} FilledFromMember(c: Point, r: nat, w: Walk, changeX: bool, opt: bv32, p: Point)
    requires Accurate(r, w)
    ensures p in FilledFrom(c, r, w, changeX, opt)
       <==> InDrawnQuadrant(c, p, opt) && Covered(r, w, changeX, Abs(p.x - c.x), Abs(p.y - c.y))
    decreases r - w.x - w.y
  {
    FilledAtMember(c, w, opt, p);
    if w.y == 0 {
      WalkEnds(r, w);
    } else {
      CoveredStep(r, w, changeX, Abs(p.x - c.x), Abs(p.y - c.y));
      FilledFromMember(c, r, Next(r, w), StepsX(r, w), opt, p);
    }
  }

  /**
    In the quadrants that are drawn, a disc is one contiguous run per column from the centre line out,
    for exactly the columns within the radius.
   */
  lemma DiscColumns(c: Point, r: nat, opt: bv32, p: Point)
    ensures p in DiscPoints(c, r, opt) <==>
            && InDrawnQuadrant(c, p, opt)
            && Abs(p.x - c.x) <= r && Abs(p.y - c.y) <= Heights(r)[Abs(p.x - c.x)]
  {
    WalkStarts(r);
    FilledFromMember(c, r, Walk(0, 0 - r), true, opt, p);
  }

  lemma AllQuadrantsDrawn(c: Point, p: Point)
    ensures InDrawnQuadrant(c, p, DRAW_ALL)
  {
    AllDrawn(0);
    AllDrawn(1);
    AllDrawn(2);
    AllDrawn(3);
  }

  lemma SquareMonotone(a: nat, b: nat)
    requires a <= b
    ensures a * a <= b * b
  {
    assert b * b == a * a + (b - a) * (b + a);
  }

  lemma OutsideRadius(r: nat, dx: nat, dy: nat)
    requires dx > r
    ensures dx * dx + dy * dy > r * r + r
  {
    SquareMonotone(r + 1, dx);
    assert (r + 1) * (r + 1) == r * r + 2 * r + 1;
    SquareMonotone(0, dy);
  }

  lemma AbsSquare(a: int)
    ensures Abs(a) * Abs(a) == a * a
  {
  }

  lemma ColumnSandwich(r: nat, x: nat, h: int, dy: nat)
    requires Accurate(r, Walk(x, -h))
    ensures dy <= h ==> x * x + dy * dy <= r * r + r
    ensures dy > h ==> x * x + dy * dy > r * r - r
  {
    var w := Walk(x, -h);
    assert x * x + h * h == r * r + Defect(r, w);
    if dy <= h {
      SquareMonotone(dy, h);
    } else {
      SquareMonotone(h + 1, dy);
      assert (h + 1) * (h + 1) == h * h + 2 * h + 1;
    }
  }

  /** The filled pixels lie between the true discs of squared radius r^2 - r and r^2 + r. */
  lemma DiscSandwich(c: Point, r: nat, p: Point)
    ensures (p.x - c.x) * (p.x - c.x) + (p.y - c.y) * (p.y - c.y) <= r * r - r ==> p in DiscPoints(c, r, 0x0F)
    ensures p in DiscPoints(c, r, 0x0F) ==> (p.x - c.x) * (p.x - c.x) + (p.y - c.y) * (p.y - c.y) <= r * r + r
  {
    DiscColumns(c, r, DRAW_ALL, p);
    AllQuadrantsDrawn(c, p);
    var dx, dy := Abs(p.x - c.x), Abs(p.y - c.y);
    AbsSquare(p.x - c.x);
    AbsSquare(p.y - c.y);
    if dx > r {
      OutsideRadius(r, dx, dy);
    } else {
      HeightAccurate(r, dx);
      ColumnSandwich(r, dx, Heights(r)[dx], dy);
    }
  }

  // ----- Which quadrant is which

  /** Where the pixels of quadrant `q` lie; away from the axis each belongs to one quadrant only. */
  lemma QuadrantRegion(c: Point, w: Walk, q: nat)
    requires q < 4 && w.x >= 0 && w.y < 0
    ensures var p := Quadrant(c, w, q);
            && (q == 3 <==> p.x > c.x && p.y <= c.y)
            && (q == 0 <==> p.x <= c.x && p.y < c.y)
            && (q == 1 <==> p.x < c.x && p.y >= c.y)
            && (q == 2 <==> p.x >= c.x && p.y > c.y)
  {
  }

  lemma MaskBits(opt: bv32)
    ensures Drawn(opt, QuadrantBit(3)) <==> opt & 0x01 == 0x01
    ensures Drawn(opt, QuadrantBit(0)) <==> opt & 0x02 == 0x02
    ensures Drawn(opt, QuadrantBit(1)) <==> opt & 0x04 == 0x04
    ensures Drawn(opt, QuadrantBit(2)) <==> opt & 0x08 == 0x08
  {
  }

  /** The pixels of quadrants that are drawn, by the bits of the mask: right and left of the centre, above and below. */
  predicate InMask(c: Point, p: Point, opt: bv32) {
    || (opt & 0x01 == 0x01 && p.x > c.x && p.y <= c.y)
    || (opt & 0x02 == 0x02 && p.x <= c.x && p.y < c.y)
    || (opt & 0x04 == 0x04 && p.x < c.x && p.y >= c.y)
    || (opt & 0x08 == 0x08 && p.x >= c.x && p.y > c.y)
  }

  lemma DrawnInMask(c: Point, w: Walk, q: nat, opt: bv32)
    requires q < 4 && w.x >= 0 && w.y < 0
    ensures InMask(c, Quadrant(c, w, q), opt) <==> Drawn(opt, QuadrantBit(q))
  {
    hide Quadrant, Drawn;
    QuadrantRegion(c, w, q);
    MaskBits(opt);
  }

  lemma CirclePartInMask(c: Point, r: nat, opt: bv32, p: Point)
    requires r >= 1
    ensures p in CirclePoints(c, r, opt) <==> p in CirclePoints(c, r, DRAW_ALL) && InMask(c, p, opt)
  {
    hide Quadrant, Drawn, InMask, ArcFrom, PlottedAlong;
    PlottedAlongMember(c, Arc(r), opt, p);
    PlottedAlongMember(c, Arc(r), DRAW_ALL, p);
    WalkStarts(r);
    if p in CirclePoints(c, r, opt) {
      var i :| 0 <= i < |Arc(r)| && p in PlottedAt(c, Arc(r)[i], opt);
      var q :| 0 <= q < 4 && Drawn(opt, QuadrantBit(q)) && p == Quadrant(c, Arc(r)[i], q);
      ArcFromAccurate(r, Walk(0, 0 - r), i);
      AllDrawn(q);
      DrawnInMask(c, Arc(r)[i], q, opt);
      assert p in PlottedAt(c, Arc(r)[i], DRAW_ALL);
    }
    if p in CirclePoints(c, r, DRAW_ALL) && InMask(c, p, opt) {
      var i :| 0 <= i < |Arc(r)| && p in PlottedAt(c, Arc(r)[i], DRAW_ALL);
      var q :| 0 <= q < 4 && p == Quadrant(c, Arc(r)[i], q);
      ArcFromAccurate(r, Walk(0, 0 - r), i);
      DrawnInMask(c, Arc(r)[i], q, opt);
      assert p in PlottedAt(c, Arc(r)[i], opt);
    }
  }

  /**
    Any mask draws exactly the part of the full circle that its bits name: 0x01 to the upper right of the
    centre, 0x02 to the upper left, 0x04 to the lower left, 0x08 to the lower right.
   */
  lemma CircleQuadrants(c: Point, r: nat, opt: bv32, p: Point)
    requires r >= 1
    ensures p in CirclePoints(c, r, opt) <==>
            && p in CirclePoints(c, r, 0x0F)
            && (|| (opt & 0x01 == 0x01 && p.x > c.x && p.y <= c.y)
                || (opt & 0x02 == 0x02 && p.x <= c.x && p.y < c.y)
                || (opt & 0x04 == 0x04 && p.x < c.x && p.y >= c.y)
                || (opt & 0x08 == 0x08 && p.x >= c.x && p.y > c.y))
  {
    assert InMask(c, p, opt) <==> (|| (opt & 0x01 == 0x01 && p.x > c.x && p.y <= c.y)
                                   || (opt & 0x02 == 0x02 && p.x <= c.x && p.y < c.y)
                                   || (opt & 0x04 == 0x04 && p.x < c.x && p.y >= c.y)
                                   || (opt & 0x08 == 0x08 && p.x >= c.x && p.y > c.y));
    CirclePartInMask(c, r, opt, p);
  }

  /** Likewise for the disc, whose quadrants include both half axes. */
  lemma DiscQuadrants(c: Point, r: nat, opt: bv32, p: Point)
    ensures p in DiscPoints(c, r, opt) <==>
            && p in DiscPoints(c, r, 0x0F)
            && (|| (opt & 0x01 == 0x01 && p.x >= c.x && p.y <= c.y)
                || (opt & 0x02 == 0x02 && p.x <= c.x && p.y <= c.y)
                || (opt & 0x04 == 0x04 && p.x <= c.x && p.y >= c.y)
                || (opt & 0x08 == 0x08 && p.x >= c.x && p.y >= c.y))
  {
    DiscColumns(c, r, opt, p);
    DiscColumns(c, r, DRAW_ALL, p);
    AllQuadrantsDrawn(c, p);
    hide DiscPoints, Heights;
  }
}
