/** The hit test of the selection tool: does a line, rectangle or circle meet
    the box the user drags?  The tests work on exact reals, so the host's NaN
    results for degenerate input appear as explicit `false` branches. */
module Intersection {
  import opened Shapes
  import opened Geometry

  // ------------------------------------------------- segment against segment

  /** Twice the signed area of the triangle `o`, `a`, `p`: zero exactly when
      `p` lies on the line through `o` and `a` (for `o != a`). */
  function Orient(o: Position, a: Position, p: Position): real
  {
    (a.x - o.x) * (p.y - o.y) - (a.y - o.y) * (p.x - o.x)
  }

  /** The 2x2 determinant of the two directions; zero when they are parallel. */
  function Denominator(p1: Position, p2: Position, p3: Position, p4: Position): real
  {
    (p1.x - p2.x) * (p3.y - p4.y) - (p1.y - p2.y) * (p3.x - p4.x)
  }

  function NumeratorX(p1: Position, p2: Position, p3: Position, p4: Position): real
  {
    (p1.x * p2.y - p1.y * p2.x) * (p3.x - p4.x) - (p1.x - p2.x) * (p3.x * p4.y - p3.y * p4.x)
  }

  function NumeratorY(p1: Position, p2: Position, p3: Position, p4: Position): real
  {
    (p1.x * p2.y - p1.y * p2.x) * (p3.y - p4.y) - (p1.y - p2.y) * (p3.x * p4.y - p3.y * p4.x)
  }

  /** Where the line through `p1`, `p2` meets the line through `p3`, `p4`. */
  function LinesMeetAt(p1: Position, p2: Position, p3: Position, p4: Position): (q: Position)
    requires Denominator(p1, p2, p3, p4) != 0.0
    ensures Orient(p1, p2, q) == 0.0 && Orient(p3, p4, q) == 0.0
  {
    var d := Denominator(p1, p2, p3, p4);
    var q := Position(NumeratorX(p1, p2, p3, p4) / d, NumeratorY(p1, p2, p3, p4) / d);
    MeetOnFirst(p1, p2, p3, p4, q);
    MeetOnSecond(p1, p2, p3, p4, q);
    q
  }

  lemma CrossMultiplied(o: Position, a: Position, q: Position, d: real)
    ensures d * Orient(o, a, q) == (a.x - o.x) * (q.y * d - o.y * d) - (a.y - o.y) * (q.x * d - o.x * d)
  {
  }

  lemma MeetOnFirst(p1: Position, p2: Position, p3: Position, p4: Position, q: Position)
    requires Denominator(p1, p2, p3, p4) != 0.0
    requires q.x * Denominator(p1, p2, p3, p4) == NumeratorX(p1, p2, p3, p4)
    requires q.y * Denominator(p1, p2, p3, p4) == NumeratorY(p1, p2, p3, p4)
    ensures Orient(p1, p2, q) == 0.0
  {
    var d := Denominator(p1, p2, p3, p4);
    CrossMultiplied(p1, p2, q, d);
    assert d * Orient(p1, p2, q) == 0.0;
  }

  lemma MeetOnSecond(p1: Position, p2: Position, p3: Position, p4: Position, q: Position)
    requires Denominator(p1, p2, p3, p4) != 0.0
    requires q.x * Denominator(p1, p2, p3, p4) == NumeratorX(p1, p2, p3, p4)
    requires q.y * Denominator(p1, p2, p3, p4) == NumeratorY(p1, p2, p3, p4)
    ensures Orient(p3, p4, q) == 0.0
  {
    var d := Denominator(p1, p2, p3, p4);
    CrossMultiplied(p3, p4, q, d);
    assert d * Orient(p3, p4, q) == 0.0;
  }

  lemma Eliminate(a: real, b: real, c: real, d: real, vx: real, vy: real)
    requires a * vy - b * vx == 0.0 && c * vy - d * vx == 0.0
    ensures (a * d - b * c) * vx == 0.0 && (a * d - b * c) * vy == 0.0
  {
    calc {
      (a * d - b * c) * vx;
      a * (d * vx) - c * (b * vx);
      a * (c * vy) - c * (a * vy);
      0.0;
    }
    calc {
      (a * d - b * c) * vy;
      d * (a * vy) - b * (c * vy);
      d * (b * vx) - b * (d * vx);
      0.0;
    }
  }

  lemma ZeroFactor(d: real, v: real)
    requires d != 0.0 && d * v == 0.0
    ensures v == 0.0
  {
  }

  /** Two lines that are not parallel meet in at most one point. */
  lemma LinesMeetOnce(p1: Position, p2: Position, p3: Position, p4: Position, p: Position, q: Position)
    requires Denominator(p1, p2, p3, p4) != 0.0
    requires Orient(p1, p2, p) == 0.0 && Orient(p3, p4, p) == 0.0
    requires Orient(p1, p2, q) == 0.0 && Orient(p3, p4, q) == 0.0
    ensures p == q
  {
    var a, b := p2.x - p1.x, p2.y - p1.y;
    var c, d := p4.x - p3.x, p4.y - p3.y;
    var vx, vy := p.x - q.x, p.y - q.y;
    assert a * vy - b * vx == Orient(p1, p2, p) - Orient(p1, p2, q);
    assert c * vy - d * vx == Orient(p3, p4, p) - Orient(p3, p4, q);
    Eliminate(a, b, c, d, vx, vy);
    assert a * d - b * c == Denominator(p1, p2, p3, p4);
    ZeroFactor(a * d - b * c, vx);
    ZeroFactor(a * d - b * c, vy);
  }

  /** `p` lies in the box spanned by `a` and `b`, edges included. */
  predicate Between(p: Position, a: Position, b: Position)
  {
    Min(a.x, b.x) <= p.x <= Max(a.x, b.x) && Min(a.y, b.y) <= p.y <= Max(a.y, b.y)
  }

  lemma StepWithin(u: real, v: real, t: real)
    requires u <= v && 0.0 <= t <= 1.0
    ensures u <= u + t * (v - u) <= v
  {
    var l := v - u;
    ScaleOrdered(l, 0.0, t);
    ScaleOrdered(l, t, 1.0);
    assert l * t == t * (v - u);
  }

  lemma LerpBetween(u: real, v: real, t: real)
    requires 0.0 <= t <= 1.0
    ensures Min(u, v) <= u + t * (v - u) <= Max(u, v)
  {
    if u <= v {
      StepWithin(u, v, t);
    } else {
      StepWithin(v, u, 1.0 - t);
      assert v + (1.0 - t) * (u - v) == u + t * (v - u);
    }
  }

  lemma OnSegmentFacts(p: Position, a: Position, b: Position)
    requires OnSegment(p, a, b)
    ensures Orient(a, b, p) == 0.0 && Between(p, a, b)
  {
    var t :| 0.0 <= t <= 1.0 && p == Lerp(a, b, t);
    assert Orient(a, b, p) == (b.x - a.x) * (t * (b.y - a.y)) - (b.y - a.y) * (t * (b.x - a.x));
    LerpBetween(a.x, b.x, t);
    LerpBetween(a.y, b.y, t);
  }

  lemma Cancel(k: real, u: real, v: real)
    requires k != 0.0 && k * u == k * v
    ensures u == v
  {
    assert k * (u - v) == 0.0;
    ZeroFactor(k, u - v);
  }

  lemma Fraction(n: real, d: real) returns (t: real)
    requires d > 0.0 && 0.0 <= n <= d
    ensures 0.0 <= t <= 1.0 && t * d == n
  {
    t := n / d;
  }

  /** The parameter along one axis: `w == a + t (b - a)` with `t` in [0, 1]. */
  lemma AxisParam(a: real, b: real, w: real) returns (t: real)
    requires a != b && Min(a, b) <= w <= Max(a, b)
    ensures 0.0 <= t <= 1.0 && w == a + t * (b - a)
  {
    if a < b {
      t := Fraction(w - a, b - a);
    } else {
      t := Fraction(a - w, a - b);
      assert t * (b - a) == -(t * (a - b));
    }
  }

  /** Following along the other axis: when `p` is on the line and `t` places
      it along one axis, the same `t` places it along the other. */
  lemma OtherAxis(u0: real, u1: real, w0: real, w1: real, pu: real, pw: real, t: real)
    requires u0 != u1 && pu == u0 + t * (u1 - u0)
    requires (u1 - u0) * (pw - w0) - (w1 - w0) * (pu - u0) == 0.0
    ensures pw == w0 + t * (w1 - w0)
  {
    assert (u1 - u0) * (pw - w0) == (u1 - u0) * (t * (w1 - w0));
    Cancel(u1 - u0, pw - w0, t * (w1 - w0));
  }

  /** A point on the line through `a` and `b` that lies in their box is on
      the segment. */
  lemma BetweenOnLineIsOnSegment(p: Position, a: Position, b: Position)
    requires a != b && Orient(a, b, p) == 0.0 && Between(p, a, b)
    ensures OnSegment(p, a, b)
  {
    if a.x != b.x {
      var t := AxisParam(a.x, b.x, p.x);
      OtherAxis(a.x, b.x, a.y, b.y, p.x, p.y, t);
      assert p == Lerp(a, b, t);
    } else {
      var t := AxisParam(a.y, b.y, p.y);
      assert p == Lerp(a, b, t);
    }
  }

  /** The closed segments `p1 p2` and `p3 p4` share a point. */
  ghost predicate SegmentsMeet(p1: Position, p2: Position, p3: Position, p4: Position)
  {
    exists q :: OnSegment(q, p1, p2) && OnSegment(q, p3, p4)
  }

  /** The determinant test of a line against one side of the selection box. */
  function LineIntersectsRectEdge(p1: Position, p2: Position, p3: Position, p4: Position): (r: bool)
    ensures Denominator(p1, p2, p3, p4) == 0.0 ==> !r
    ensures r ==> Between(LinesMeetAt(p1, p2, p3, p4), p1, p2) && Between(LinesMeetAt(p1, p2, p3, p4), p3, p4)
  {
    if Denominator(p1, p2, p3, p4) == 0.0 then false
    else
      var q := LinesMeetAt(p1, p2, p3, p4);
      if q.x < Min(p1.x, p2.x) || q.x > Max(p1.x, p2.x) || q.x < Min(p3.x, p4.x) || q.x > Max(p3.x, p4.x) then false
      else if q.y < Min(p1.y, p2.y) || q.y > Max(p1.y, p2.y) || q.y < Min(p3.y, p4.y) || q.y > Max(p3.y, p4.y) then false
      else true
  }

  /** The determinant test answers exactly "the two segments are not parallel
      and share a point"; parallel segments never count, even overlapping. */
  lemma RectEdgeTestMeansSegmentsMeet(p1: Position, p2: Position, p3: Position, p4: Position)
    ensures LineIntersectsRectEdge(p1, p2, p3, p4) <==>
              Denominator(p1, p2, p3, p4) != 0.0 && SegmentsMeet(p1, p2, p3, p4)
  {
    if Denominator(p1, p2, p3, p4) != 0.0 {
      var q := LinesMeetAt(p1, p2, p3, p4);
      assert p1 != p2 && p3 != p4;
      if LineIntersectsRectEdge(p1, p2, p3, p4) {
        BetweenOnLineIsOnSegment(q, p1, p2);
        BetweenOnLineIsOnSegment(q, p3, p4);
      }
      if SegmentsMeet(p1, p2, p3, p4) {
        var w :| OnSegment(w, p1, p2) && OnSegment(w, p3, p4);
        OnSegmentFacts(w, p1, p2);
        OnSegmentFacts(w, p3, p4);
        LinesMeetOnce(p1, p2, p3, p4, w, q);
      }
    }
  }

  // ---------------------------------------------- line against selection box

  /** The corners of the selection box, clockwise from the upper-left. */
  function Corners(bounds: SelectionBounds): (cs: seq<Position>)
    ensures |cs| == 4
  {
    [Position(bounds.minX, bounds.minY), Position(bounds.maxX, bounds.minY),
     Position(bounds.maxX, bounds.maxY), Position(bounds.minX, bounds.maxY)]
  }

  /** Side `k` of the selection box: top, right, bottom, left, each running
      clockwise from corner `k` to the next. */
  function BoxSide(bounds: SelectionBounds, k: int): (side: Segment)
    requires 0 <= k < 4
    ensures side.a == Corners(bounds)[k] && side.b == Corners(bounds)[(k + 1) % 4]
  {
    Segment(Corners(bounds)[k], Corners(bounds)[(k + 1) % 4])
  }

  /** `m` is within `threshold` of some point of the infinite line through
      `a` and `b`. */
  ghost predicate NearLine(m: Position, a: Position, b: Position, threshold: real)
  {
    exists s :: Within(m, Lerp(a, b, s), threshold)
  }

  /** The proximity test: is some corner of the box within `threshold` of the
      foot of its perpendicular on the line?  A zero-length line has no
      direction and never passes. */
  function IsLineCloseToSelection(a: Position, b: Position, bounds: SelectionBounds, threshold: real): (r: bool)
    ensures a == b ==> !r
  {
    if a == b then false
    else exists k | 0 <= k < 4 :: Within(Corners(bounds)[k], Foot(a, b, Corners(bounds)[k]), threshold)
  }

  /** The proximity test measures the distance to the whole infinite line,
      not to the segment. */
  lemma LineCloseMeansCornerNearLine(a: Position, b: Position, bounds: SelectionBounds, threshold: real)
    ensures IsLineCloseToSelection(a, b, bounds, threshold) <==>
              a != b && exists k :: 0 <= k < 4 && NearLine(Corners(bounds)[k], a, b, threshold)
  {
    if a != b {
      if IsLineCloseToSelection(a, b, bounds, threshold) {
        var k :| 0 <= k < 4 && Within(Corners(bounds)[k], Foot(a, b, Corners(bounds)[k]), threshold);
        assert Within(Corners(bounds)[k], Lerp(a, b, ProjectionParam(a, b, Corners(bounds)[k])), threshold);
      }
      if exists k :: 0 <= k < 4 && NearLine(Corners(bounds)[k], a, b, threshold) {
        var k :| 0 <= k < 4 && NearLine(Corners(bounds)[k], a, b, threshold);
        var s :| Within(Corners(bounds)[k], Lerp(a, b, s), threshold);
        FootIsNearestOnLine(a, b, Corners(bounds)[k], s);
      }
    }
  }

  /** `p` lies in the selection box, edges included. */
  predicate Inside(p: Position, bounds: SelectionBounds)
  {
    bounds.minX <= p.x <= bounds.maxX && bounds.minY <= p.y <= bounds.maxY
  }

  /** The selection box overlaps the box spanned by `a` and `b`. */
  predicate BoxesOverlap(a: Position, b: Position, bounds: SelectionBounds)
  {
    bounds.minX <= Max(a.x, b.x) && bounds.maxX >= Min(a.x, b.x) &&
    bounds.minY <= Max(a.y, b.y) && bounds.maxY >= Min(a.y, b.y)
  }

  /** How close a line must pass a corner of the box to be picked up. */
  const ProximityThreshold := 5.0

  /** Whether the line from `a` to `b` is picked up by the selection box. */
  function LineIntersectsSelection(a: Position, b: Position, bounds: SelectionBounds): (r: bool)
    ensures Inside(a, bounds) && Inside(b, bounds) ==> r
    ensures !(Inside(a, bounds) && Inside(b, bounds)) && !BoxesOverlap(a, b, bounds) ==> !r
  {
    if Inside(a, bounds) && Inside(b, bounds) then true
    else if BoxesOverlap(a, b, bounds) then
      if LineIntersectsRectEdge(a, b, BoxSide(bounds, 0).a, BoxSide(bounds, 0).b)
         || LineIntersectsRectEdge(a, b, BoxSide(bounds, 1).a, BoxSide(bounds, 1).b)
         || LineIntersectsRectEdge(a, b, BoxSide(bounds, 2).a, BoxSide(bounds, 2).b)
         || LineIntersectsRectEdge(a, b, BoxSide(bounds, 3).a, BoxSide(bounds, 3).b)
      then true
      else IsLineCloseToSelection(a, b, bounds, ProximityThreshold)
    else false
  }

  /** Some side of the box crosses the segment from `a` to `b` without being
      parallel to it. */
  ghost predicate CrossesSomeSide(a: Position, b: Position, bounds: SelectionBounds)
  {
    exists k :: 0 <= k < 4 &&
      Denominator(a, b, BoxSide(bounds, k).a, BoxSide(bounds, k).b) != 0.0 &&
      SegmentsMeet(a, b, BoxSide(bounds, k).a, BoxSide(bounds, k).b)
  }

  /** What the line test decides, in geometric terms: both ends inside, or
      the boxes overlap and either a side of the box crosses the segment or a
      corner of the box lies near the infinite line. */
  lemma LineSelectionMeaning(a: Position, b: Position, bounds: SelectionBounds)
    ensures LineIntersectsSelection(a, b, bounds) <==>
      (Inside(a, bounds) && Inside(b, bounds)) ||
      (BoxesOverlap(a, b, bounds) &&
        (CrossesSomeSide(a, b, bounds) ||
         (a != b && exists k :: 0 <= k < 4 && NearLine(Corners(bounds)[k], a, b, ProximityThreshold))))
  {
    forall k | 0 <= k < 4
      ensures LineIntersectsRectEdge(a, b, BoxSide(bounds, k).a, BoxSide(bounds, k).b) <==>
        Denominator(a, b, BoxSide(bounds, k).a, BoxSide(bounds, k).b) != 0.0 &&
        SegmentsMeet(a, b, BoxSide(bounds, k).a, BoxSide(bounds, k).b)
    {
      RectEdgeTestMeansSegmentsMeet(a, b, BoxSide(bounds, k).a, BoxSide(bounds, k).b);
    }
    LineCloseMeansCornerNearLine(a, b, bounds, ProximityThreshold);
  }

  // ----------------------------------------------- segment against circle

  /** The quadratic `a t^2 + b t + c` in `t`. */
  function Poly(a: real, b: real, c: real, t: real): real
  {
    a * t * t + b * t + c
  }

  lemma TimesFourA(a: real, b: real, c: real, t: real)
    ensures 4.0 * a * Poly(a, b, c, t) == (2.0 * a * t + b) * (2.0 * a * t + b) - (b * b - 4.0 * a * c)
  {
  }

  lemma SolveLinear(a: real, b: real, s: real, t: real)
    requires a != 0.0
    ensures 2.0 * a * t + b - s == 0.0 <==> t == (-b + s) / (2.0 * a)
  {
  }

  /** With `s` a root of the discriminant, the quadratic vanishes exactly at
      the two roots of the quadratic formula. */
  lemma QuadraticRoots(a: real, b: real, c: real, s: real, t: real)
    requires a != 0.0 && s * s == b * b - 4.0 * a * c
    ensures Poly(a, b, c, t) == 0.0 <==> t == (-b - s) / (2.0 * a) || t == (-b + s) / (2.0 * a)
  {
    TimesFourA(a, b, c, t);
    assert 4.0 * a * Poly(a, b, c, t) == (2.0 * a * t + b - s) * (2.0 * a * t + b + s);
    SolveLinear(a, b, s, t);
    SolveLinear(a, b, -s, t);
    if Poly(a, b, c, t) == 0.0 {
      var u, v := 2.0 * a * t + b - s, 2.0 * a * t + b + s;
      assert u * v == 0.0;
      if u != 0.0 {
        ZeroFactor(u, v);
      }
    }
  }

  /** A negative discriminant leaves the quadratic without a real root. */
  lemma NoRoot(a: real, b: real, c: real, t: real)
    requires b * b - 4.0 * a * c < 0.0
    ensures Poly(a, b, c, t) != 0.0
  {
    assert b * b >= 0.0;
    TimesFourA(a, b, c, t);
    var w := 2.0 * a * t + b;
    assert w * w >= 0.0;
  }

  /** The coefficients of `|p1 + t (p2 - p1) - c|^2 - radius^2` in `t`. */
  function CoefA(p1: Position, p2: Position): real
  {
    Dist2(p2, p1)
  }

  function CoefB(p1: Position, p2: Position, c: Position): real
  {
    2.0 * ((p1.x - c.x) * (p2.x - p1.x) + (p1.y - c.y) * (p2.y - p1.y))
  }

  function CoefC(p1: Position, c: Position, radius: real): real
  {
    Dist2(p1, c) - radius * radius
  }

  function Discriminant(p1: Position, p2: Position, c: Position, radius: real): real
  {
    CoefB(p1, p2, c) * CoefB(p1, p2, c) - 4.0 * CoefA(p1, p2) * CoefC(p1, c, radius)
  }

  lemma CoefBIsDot(p1: Position, p2: Position, c: Position)
    ensures CoefB(p1, p2, c) == -2.0 * Dot(p1, p2, c)
  {
  }

  lemma QuadAsPoly(c0: real, k: real, l: real, radius: real, t: real)
    ensures Quad(c0, k, l, t) - radius * radius == Poly(l, -2.0 * k, c0 - radius * radius, t)
  {
  }

  lemma CircleQuadratic(p1: Position, p2: Position, c: Position, radius: real, t: real)
    ensures Dist2(c, Lerp(p1, p2, t)) - radius * radius ==
              Poly(CoefA(p1, p2), CoefB(p1, p2, c), CoefC(p1, c, radius), t)
  {
    Dist2Lerp(p1, p2, c, t);
    Dist2Symmetric(p1, c);
    CoefBIsDot(p1, p2, c);
    QuadAsPoly(Dist2(c, p1), Dot(p1, p2, c), Dist2(p2, p1), radius, t);
  }

  /** The segment from `p1` to `p2` is a proper segment and has a point on
      the circle around `c` of the given radius. */
  ghost predicate MeetsCircle(p1: Position, p2: Position, c: Position, radius: real)
  {
    p1 != p2 && exists t :: 0.0 <= t <= 1.0 && Dist2(c, Lerp(p1, p2, t)) == radius * radius
  }

  /** The discriminant test of a segment against a circle: does a root of
      the quadratic fall in [0, 1]?  A zero-length segment divides zero by
      zero and never passes. */
  function DoesLineIntersectCircle(p1: Position, p2: Position, c: Position, radius: real, sqrt: real -> real): (r: bool)
    requires Discriminant(p1, p2, c, radius) >= 0.0 ==> RootAt(sqrt, Discriminant(p1, p2, c, radius))
    ensures Discriminant(p1, p2, c, radius) < 0.0 ==> !r
    ensures p1 == p2 ==> !r
  {
    Dist2ZeroIffSame(p2, p1);
    var a, b := CoefA(p1, p2), CoefB(p1, p2, c);
    var d := Discriminant(p1, p2, c, radius);
    if d < 0.0 || a == 0.0 then false
    else
      var root := sqrt(d);
      var t1 := (-b - root) / (2.0 * a);
      var t2 := (-b + root) / (2.0 * a);
      (0.0 <= t1 <= 1.0) || (0.0 <= t2 <= 1.0)
  }

  lemma CircleHitMeetsCircle(p1: Position, p2: Position, c: Position, radius: real, sqrt: real -> real)
    requires Discriminant(p1, p2, c, radius) >= 0.0 ==> RootAt(sqrt, Discriminant(p1, p2, c, radius))
    requires DoesLineIntersectCircle(p1, p2, c, radius, sqrt)
    ensures MeetsCircle(p1, p2, c, radius)
  {
    var a, b, cc := CoefA(p1, p2), CoefB(p1, p2, c), CoefC(p1, c, radius);
    var root := sqrt(Discriminant(p1, p2, c, radius));
    var t1 := (-b - root) / (2.0 * a);
    var t2 := (-b + root) / (2.0 * a);
    var t := if 0.0 <= t1 <= 1.0 then t1 else t2;
    QuadraticRoots(a, b, cc, root, t);
    CircleQuadratic(p1, p2, c, radius, t);
  }

  lemma CircleMeetIsHit(p1: Position, p2: Position, c: Position, radius: real, sqrt: real -> real)
    requires Discriminant(p1, p2, c, radius) >= 0.0 ==> RootAt(sqrt, Discriminant(p1, p2, c, radius))
    requires MeetsCircle(p1, p2, c, radius)
    ensures DoesLineIntersectCircle(p1, p2, c, radius, sqrt)
  {
    Dist2ZeroIffSame(p2, p1);
    var a, b, cc := CoefA(p1, p2), CoefB(p1, p2, c), CoefC(p1, c, radius);
    var t :| 0.0 <= t <= 1.0 && Dist2(c, Lerp(p1, p2, t)) == radius * radius;
    CircleQuadratic(p1, p2, c, radius, t);
    if Discriminant(p1, p2, c, radius) < 0.0 {
      NoRoot(a, b, cc, t);
    } else {
      QuadraticRoots(a, b, cc, sqrt(Discriminant(p1, p2, c, radius)), t);
    }
  }

  /** The discriminant test answers exactly "the segment meets the circle". */
  lemma LineCircleMeaning(p1: Position, p2: Position, c: Position, radius: real, sqrt: real -> real)
    requires Discriminant(p1, p2, c, radius) >= 0.0 ==> RootAt(sqrt, Discriminant(p1, p2, c, radius))
    ensures DoesLineIntersectCircle(p1, p2, c, radius, sqrt) <==> MeetsCircle(p1, p2, c, radius)
  {
    if DoesLineIntersectCircle(p1, p2, c, radius, sqrt) {
      CircleHitMeetsCircle(p1, p2, c, radius, sqrt);
    }
    if MeetsCircle(p1, p2, c, radius) {
      CircleMeetIsHit(p1, p2, c, radius, sqrt);
    }
  }

  // ------------------------------------------- rectangle and circle shapes

  /** The selection box contains the axis-aligned box `[minX, maxX] x [minY, maxY]`. */
  predicate Covers(bounds: SelectionBounds, minX: real, minY: real, maxX: real, maxY: real)
  {
    bounds.minX <= minX && bounds.minY <= minY && bounds.maxX >= maxX && bounds.maxY >= maxY
  }

  /** A rectangle is selected when the box covers it or picks up one of its
      sides.  The corners are normalised first, so which two opposite corners
      define the rectangle does not matter. */
  function RectangleIntersectsSelection(s: Shape, bounds: SelectionBounds): (r: bool)
    ensures Covers(bounds, Min(s.startX, s.endX), Min(s.startY, s.endY), Max(s.startX, s.endX), Max(s.startY, s.endY)) ==> r
  {
    var minX, minY := Min(s.startX, s.endX), Min(s.startY, s.endY);
    var maxX, maxY := Max(s.startX, s.endX), Max(s.startY, s.endY);
    if Covers(bounds, minX, minY, maxX, maxY) then true
    else
      LineIntersectsSelection(Position(minX, minY), Position(maxX, minY), bounds) ||
      LineIntersectsSelection(Position(maxX, minY), Position(maxX, maxY), bounds) ||
      LineIntersectsSelection(Position(minX, maxY), Position(maxX, maxY), bounds) ||
      LineIntersectsSelection(Position(minX, minY), Position(minX, maxY), bounds)
  }

  /** Any two rectangles with the same extent get the same answer; in
      particular swapping the start and end corners changes nothing. */
  lemma RectangleCornersInterchangeable(s: Shape, t: Shape, bounds: SelectionBounds)
    requires {s.startX, s.endX} == {t.startX, t.endX} && {s.startY, s.endY} == {t.startY, t.endY}
    ensures RectangleIntersectsSelection(s, bounds) == RectangleIntersectsSelection(t, bounds)
  {
    assert s.startX in {t.startX, t.endX} && s.endX in {t.startX, t.endX};
    assert t.startX in {s.startX, s.endX} && t.endX in {s.startX, s.endX};
    assert s.startY in {t.startY, t.endY} && s.endY in {t.startY, t.endY};
    assert t.startY in {s.startY, s.endY} && t.endY in {s.startY, s.endY};
  }

  /** The root of the squared radius and the root of every box side's
      discriminant are exact: the values the circle test takes roots of. */
  ghost predicate CircleRootsAvailable(s: Shape, bounds: SelectionBounds, sqrt: real -> real)
  {
    RootAt(sqrt, Dist2(s.End(), s.Start())) &&
    forall k :: 0 <= k < 4 ==>
      var d := Discriminant(BoxSide(bounds, k).a, BoxSide(bounds, k).b, s.Start(), sqrt(Dist2(s.End(), s.Start())));
      d >= 0.0 ==> RootAt(sqrt, d)
  }

  /** A circle is selected when the box covers its bounding square, or when
      a side of the box crosses its circumference. */
  function CircleIntersectsSelection(s: Shape, bounds: SelectionBounds, sqrt: real -> real): (r: bool)
    requires CircleRootsAvailable(s, bounds, sqrt)
    ensures var radius := sqrt(Dist2(s.End(), s.Start()));
            Covers(bounds, s.startX - radius, s.startY - radius, s.startX + radius, s.startY + radius) ==> r
  {
    var radius := sqrt(Dist2(s.End(), s.Start()));
    if Covers(bounds, s.startX - radius, s.startY - radius, s.startX + radius, s.startY + radius) then true
    else exists k | 0 <= k < 4 :: DoesLineIntersectCircle(BoxSide(bounds, k).a, BoxSide(bounds, k).b, s.Start(), radius, sqrt)
  }

  /** Short of covering it, the box selects the circle exactly when one of
      its sides meets the circumference. */
  lemma CircleSelectionMeaning(s: Shape, bounds: SelectionBounds, sqrt: real -> real)
    requires CircleRootsAvailable(s, bounds, sqrt)
    ensures var radius := sqrt(Dist2(s.End(), s.Start()));
            !Covers(bounds, s.startX - radius, s.startY - radius, s.startX + radius, s.startY + radius) ==>
              (CircleIntersectsSelection(s, bounds, sqrt) <==>
               exists k :: 0 <= k < 4 && MeetsCircle(BoxSide(bounds, k).a, BoxSide(bounds, k).b, s.Start(), radius))
  {
    var radius := sqrt(Dist2(s.End(), s.Start()));
    forall k | 0 <= k < 4
      ensures DoesLineIntersectCircle(BoxSide(bounds, k).a, BoxSide(bounds, k).b, s.Start(), radius, sqrt) <==>
              MeetsCircle(BoxSide(bounds, k).a, BoxSide(bounds, k).b, s.Start(), radius)
    {
      LineCircleMeaning(BoxSide(bounds, k).a, BoxSide(bounds, k).b, s.Start(), radius, sqrt);
    }
  }

  lemma QuadInterpolates(c: real, k: real, l: real, t: real)
    ensures Quad(c, k, l, t) == (1.0 - t) * c + t * Quad(c, k, l, 1.0) - t * ((1.0 - t) * l)
  {
  }

  lemma ScaleStrict(l: real, u: real, v: real)
    requires l > 0.0 && u < v
    ensures l * u < l * v
  {
    assert l * v - l * u == l * (v - u);
  }
  lemma BelowBoth(x: real, y: real, bound: real, t: real, l: real)
    requires x < bound && y < bound && 0.0 <= t <= 1.0 && l >= 0.0
    ensures (1.0 - t) * x + t * y - t * ((1.0 - t) * l) < bound
  {
    var p, q, w := (1.0 - t) * (x - bound), t * (y - bound), t * ((1.0 - t) * l);
    assert (1.0 - t) * l >= 0.0;
    assert w >= 0.0;
    assert p <= 0.0;
    if t == 0.0 {
      assert p == x - bound;
      assert q == 0.0;
    } else {
      ScaleStrict(t, y, bound);
      assert q < 0.0;
    }
    assert (1.0 - t) * x + t * y - w - bound == p + q - w;
  }

  /** A disc is convex: a segment whose ends lie strictly inside the circle
      stays strictly inside. */
  lemma SegmentInsideDisc(a: Position, b: Position, m: Position, r2: real, t: real)
    requires Dist2(m, a) < r2 && Dist2(m, b) < r2 && 0.0 <= t <= 1.0
    ensures Dist2(m, Lerp(a, b, t)) < r2
  {
    var c, k, l := Dist2(m, a), Dot(a, b, m), Dist2(b, a);
    Dist2Lerp(a, b, m, t);
    Dist2Lerp(a, b, m, 1.0);
    assert Lerp(a, b, 1.0) == b;
    QuadInterpolates(c, k, l, t);
    BelowBoth(c, Quad(c, k, l, 1.0), r2, t, l);
  }

  /** Each side of a box whose corners lie strictly inside a disc stays
      strictly inside it. */
  lemma SideInsideDisc(bounds: SelectionBounds, c: Position, r2: real, k: int)
    requires 0 <= k < 4
    requires forall j :: 0 <= j < 4 ==> Dist2(c, Corners(bounds)[j]) < r2
    ensures forall t :: 0.0 <= t <= 1.0 ==> Dist2(c, Lerp(BoxSide(bounds, k).a, BoxSide(bounds, k).b, t)) < r2
  {
    var side := BoxSide(bounds, k);
    assert Dist2(c, side.a) < r2 && Dist2(c, side.b) < r2;
    forall t | 0.0 <= t <= 1.0
      ensures Dist2(c, Lerp(side.a, side.b, t)) < r2
    {
      SegmentInsideDisc(side.a, side.b, c, r2, t);
    }
  }

  /** A box with its upper-left corner strictly inside a circle cannot cover
      the circle's bounding square. */
  lemma CornerInsideNotCovered(bounds: SelectionBounds, c: Position, radius: real)
    requires radius >= 0.0 && Dist2(c, Corners(bounds)[0]) < radius * radius
    ensures !Covers(bounds, c.x - radius, c.y - radius, c.x + radius, c.y + radius)
  {
    if Covers(bounds, c.x - radius, c.y - radius, c.x + radius, c.y + radius) {
      SquaresOrdered(radius, c.x - bounds.minX);
      SquaresOrdered(radius, c.y - bounds.minY);
      SqNonNegative(radius);
    }
  }

  /** A selection box lying strictly inside a circle does not select it: it
      neither covers the circle nor crosses its circumference. */
  lemma BoxInsideCircleNotSelected(s: Shape, bounds: SelectionBounds, sqrt: real -> real)
    requires CircleRootsAvailable(s, bounds, sqrt)
    requires forall k :: 0 <= k < 4 ==> Dist2(s.Start(), Corners(bounds)[k]) < Dist2(s.End(), s.Start())
    ensures !CircleIntersectsSelection(s, bounds, sqrt)
  {
    var radius := sqrt(Dist2(s.End(), s.Start()));
    var c := s.Start();
    assert radius * radius == Dist2(s.End(), s.Start());
    CornerInsideNotCovered(bounds, c, radius);
    CircleSelectionMeaning(s, bounds, sqrt);
    forall k | 0 <= k < 4
      ensures !MeetsCircle(BoxSide(bounds, k).a, BoxSide(bounds, k).b, c, radius)
    {
      SideInsideDisc(bounds, c, radius * radius, k);
    }
  }

  // ------------------------------------------------------------- dispatch

  /** The hit test for any shape: lines, rectangles and circles go to their
      own tests; any other kind is an error. */
  function IsShapeIntersecting(s: Shape, bounds: SelectionBounds, sqrt: real -> real): (r: Result<bool>)
    requires s.kind == Circle ==> CircleRootsAvailable(s, bounds, sqrt)
    ensures r.Error? <==> s.kind == Point
    ensures r.Error? ==> r.message == "Invalid shape type"
    ensures s.kind == Line ==> r == Ok(LineIntersectsSelection(s.Start(), s.End(), bounds))
    ensures s.kind == Rectangle ==> r == Ok(RectangleIntersectsSelection(s, bounds))
    ensures s.kind == Circle ==> r == Ok(CircleIntersectsSelection(s, bounds, sqrt))
  {
    match s.kind
    case Rectangle => Ok(RectangleIntersectsSelection(s, bounds))
    case Circle => Ok(CircleIntersectsSelection(s, bounds, sqrt))
    case Line => Ok(LineIntersectsSelection(s.Start(), s.End(), bounds))
    case Point => Error("Invalid shape type")
  }
}
