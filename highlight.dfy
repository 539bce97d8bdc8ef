/** The drawing panel's own snap rules: which shape the cursor snaps to, and
    where on it the snap highlight goes.  The panel does not call the snap
    helpers; it repeats their feature points inline, tests shapes in list
    order, and then places the highlight at the nearest feature point, or
    else on the shape's outline. */
module Highlight {
  import opened Shapes
  import opened Geometry
  import opened Snap
  import opened Intersection

  // ------------------------------------------------------- nearest of a list

  /** The point of a non-empty list nearest to `m`; among equally near points
      the earliest. */
  function Closest(points: seq<Position>, m: Position): (c: Position)
    requires |points| > 0
    ensures c in points
    ensures forall j :: 0 <= j < |points| ==> Dist2(m, c) <= Dist2(m, points[j])
    ensures exists k :: 0 <= k < |points| && points[k] == c
              && forall j :: 0 <= j < k ==> Dist2(m, c) < Dist2(m, points[j])
  {
    NearestAmongPoints(points, m);
    NearestAmongIsFirstNearest(Lift(points), m);
    var k :| 0 <= k < |points| && Lift(points)[k] == NearestAmong(Lift(points), m)
             && (forall j :: 0 <= j < |points| && Lift(points)[j].Some? ==>
                   Dist2(m, NearestAmong(Lift(points), m).value) <= Dist2(m, Lift(points)[j].value))
             && (forall j :: 0 <= j < k && Lift(points)[j].Some? ==>
                   Dist2(m, NearestAmong(Lift(points), m).value) < Dist2(m, Lift(points)[j].value));
    assert points[k] == NearestAmong(Lift(points), m).value;
    NearestAmong(Lift(points), m).value
  }

  /** The nearest point is in range exactly when some point is. */
  lemma ClosestInRange(points: seq<Position>, m: Position, threshold: real)
    requires |points| > 0
    ensures Within(m, Closest(points, m), threshold) <==>
      exists j :: 0 <= j < |points| && Within(m, points[j], threshold)
  {
    var c := Closest(points, m);
    var k :| 0 <= k < |points| && points[k] == c;
  }

  /** The panel's scan: start from the first point and keep any point
      strictly nearer than the best so far.  Distances are compared squared,
      which orders them as the distances themselves. */
  method ClosestPoint(points: seq<Position>, m: Position) returns (closestPoint: Position, minDistance: real)
    requires |points| > 0
    ensures closestPoint == Closest(points, m)
    ensures minDistance == Dist2(m, closestPoint)
  {
    ghost var cands := Lift(points);
    closestPoint := points[0];
    minDistance := Dist2(m, closestPoint);
    assert cands[..1][..0] == [];
    for i := 0 to |points|
      invariant minDistance == Dist2(m, closestPoint)
      invariant Some(closestPoint) == NearestAmong(cands[..if i == 0 then 1 else i], m)
    {
      var distance := Dist2(m, points[i]);
      if distance < minDistance {
        minDistance := distance;
        closestPoint := points[i];
      }
      assert cands[..i + 1][..i] == cands[..i] && cands[..i + 1][i] == Some(points[i]);
    }
    assert cands[..|points|] == cands;
  }

  // ------------------------------------------------------------ snap test

  /** A line passes when one of its feature points, or else its nearest
      point, is in range; a line of length zero has no nearest point. */
  predicate LineSnapTest(s: Shape, m: Position)
  {
    NearestPoint(LineSnapPoints(s), m, SnapThreshold).Some?
    || NearestLinePathPoint(s.Start(), s.End(), m, SnapThreshold).Some?
  }

  /** How many rectangle feature points the test looks at: corners,
      midpoints and the quarter points of the horizontal sides. */
  const RectanglePriorityCount: int := 12

  /** A rectangle passes when one of its first twelve feature points is in
      range, or else the nearest point of one of its sides is. */
  predicate RectangleSnapTest(s: Shape, m: Position)
  {
    NearestPoint(RectangleSnapPoints(s)[..RectanglePriorityCount], m, SnapThreshold).Some?
    || exists k :: 0 <= k < 4 && SideProjections(s, m)[k].Some?
  }

  /** A circle passes when the cursor is in range of its centre, or its
      distance from the centre is within range of the radius. */
  predicate CircleSnapTest(s: Shape, m: Position, sqrt: real -> real)
  {
    Within(m, s.Start(), SnapThreshold)
    || Abs(sqrt(Dist2(m, s.Start())) - sqrt(RadiusSq(s))) <= SnapThreshold
  }

  /** The test a shape must pass to be snapped to; a point never passes. */
  predicate PassesSnapTest(s: Shape, m: Position, sqrt: real -> real)
  {
    match s.kind
    case Line => LineSnapTest(s, m)
    case Rectangle => RectangleSnapTest(s, m)
    case Circle => CircleSnapTest(s, m, sqrt)
    case Point => false
  }

  /** The first shape, in list order, that passes the snap test. */
  function FindSnapped(shapes: seq<Shape>, m: Position, sqrt: real -> real): (r: Option<Shape>)
    ensures r.None? <==> forall i :: 0 <= i < |shapes| ==> !PassesSnapTest(shapes[i], m, sqrt)
    ensures r.Some? ==> exists k :: 0 <= k < |shapes| && shapes[k] == r.value
                          && PassesSnapTest(r.value, m, sqrt)
                          && forall j :: 0 <= j < k ==> !PassesSnapTest(shapes[j], m, sqrt)
  {
    if |shapes| == 0 then None
    else if PassesSnapTest(shapes[0], m, sqrt) then Some(shapes[0])
    else
      var r := FindSnapped(shapes[1..], m, sqrt);
      assert forall i :: 1 <= i < |shapes| ==> shapes[i] == shapes[1..][i - 1];
      if r.Some? then
        var k :| 0 <= k < |shapes| - 1 && shapes[1..][k] == r.value
                 && forall j :: 0 <= j < k ==> !PassesSnapTest(shapes[1..][j], m, sqrt);
        assert shapes[k + 1] == r.value;
        r
      else r
  }

  /** The panel's line test accepts exactly the lines the line snap helper
      offers a point of. */
  lemma LineSnapTestAgrees(s: Shape, m: Position)
    ensures LineSnapTest(s, m) <==> NearestLinePoint(s, m).Some?
  {
  }

  /** The panel's rectangle test, which skips the quarter points of the
      vertical sides, accepts exactly the rectangles the rectangle snap
      helper offers a point of: those four points lie on sides, so the side
      test catches them. */
  lemma {:induction false} RectangleSnapTestAgrees(s: Shape, m: Position)
    ensures RectangleSnapTest(s, m) <==> RectanglePoint(s, m).Some?
  {
    var pts := RectangleSnapPoints(s);
    var cands := SideProjections(s, m);
    RectangleSidesPointIsNearest(s, m);
    if RectangleSnapTest(s, m) {
      if NearestPoint(pts[..RectanglePriorityCount], m, SnapThreshold).Some? {
        var j :| 0 <= j < RectanglePriorityCount && Within(m, pts[..RectanglePriorityCount][j], SnapThreshold);
        assert Within(m, pts[j], SnapThreshold);
      }
    }
    if RectanglePoint(s, m).Some? && NearestPoint(pts, m, SnapThreshold).Some? {
      var j :| 0 <= j < 16 && Within(m, pts[j], SnapThreshold)
               && forall i :: 0 <= i < j ==> !Within(m, pts[i], SnapThreshold);
      if j < RectanglePriorityCount {
        assert pts[..RectanglePriorityCount][j] == pts[j];
      } else {
        VerticalQuarterOnSide(s, m, j);
      }
    }
  }

  /** A vertical quarter point in range, with no corner in range, puts the
      nearest point of its side in range. */
  lemma VerticalQuarterOnSide(s: Shape, m: Position, j: int)
    requires RectanglePriorityCount <= j < 16
    requires Within(m, RectangleSnapPoints(s)[j], SnapThreshold)
    ensures RectangleSnapTest(s, m)
  {
    var pts := RectangleSnapPoints(s);
    RectangleSnapPointOnSide(s, j);
    var k := RectangleSnapSide[j];
    var a, b := RectangleSides(s)[k].a, RectangleSides(s)[k].b;
    var t := RectangleSnapParam[j];
    assert pts[j] == Lerp(a, b, t);
    NearestLinePathPointIsNearest(a, b, m, SnapThreshold);
    if a == b {
      assert pts[j] == a;
      assert a == pts[3] || a == pts[1];
      assert pts[..RectanglePriorityCount][1] == pts[1] && pts[..RectanglePriorityCount][3] == pts[3];
    } else {
      assert SideProjections(s, m)[k].Some?;
    }
  }

  // ------------------------------------------------------ highlight shapes

  /** The snapped shape with its start moved to the highlight point; id,
      kind, end and selection flag are kept. */
  function Moved(s: Shape, p: Position): (h: Shape)
    ensures h.Start() == p && h.End() == s.End()
    ensures h.id == s.id && h.kind == s.kind && h.isSelected == s.isSelected
  {
    s.(startX := p.x, startY := p.y)
  }

  /** When the nearest feature point of a line that passed the test is out
      of range, its nearest point passed instead, so the line has length. */
  lemma LineProjectionAvailable(s: Shape, m: Position)
    requires LineSnapTest(s, m)
    requires !Within(m, Closest(LineSnapPoints(s), m), SnapThreshold)
    ensures s.Start() != s.End()
    ensures NearestLinePathPoint(s.Start(), s.End(), m, SnapThreshold).Some?
  {
    ClosestInRange(LineSnapPoints(s), m, SnapThreshold);
  }

  /** Where the highlight goes on a line that passed the test: its nearest
      feature point if that is in range, else its nearest point.  Either
      way it is on the line and in range. */
  function LineHighlightPoint(s: Shape, m: Position): (p: Position)
    requires LineSnapTest(s, m)
    ensures Within(m, p, SnapThreshold) && OnSegment(p, s.Start(), s.End())
    ensures Within(m, Closest(LineSnapPoints(s), m), SnapThreshold) ==>
      p in LineSnapPoints(s) && forall j :: 0 <= j < 5 ==> Dist2(m, p) <= Dist2(m, LineSnapPoints(s)[j])
    ensures Within(m, Closest(LineSnapPoints(s), m), SnapThreshold) ==>
      exists k :: 0 <= k < 5 && LineSnapPoints(s)[k] == p
        && forall j :: 0 <= j < k ==> Dist2(m, p) < Dist2(m, LineSnapPoints(s)[j])
    ensures !Within(m, Closest(LineSnapPoints(s), m), SnapThreshold) ==>
      forall t :: 0.0 <= t <= 1.0 ==> Dist2(m, p) <= Dist2(m, Lerp(s.Start(), s.End(), t))
  {
    var pts := LineSnapPoints(s);
    var c := Closest(pts, m);
    if Within(m, c, SnapThreshold) then
      var k :| 0 <= k < 5 && pts[k] == c;
      LineSnapPointsOnLine(s, k);
      c
    else
      LineProjectionAvailable(s, m);
      NearestLinePathPointIsNearest(s.Start(), s.End(), m, SnapThreshold);
      Lerp(s.Start(), s.End(), Clamp01(ProjectionParam(s.Start(), s.End(), m)))
  }

  /** `v` clamped into the interval between `a` and `b`, in either order. */
  function ClampBetween(v: real, a: real, b: real): (c: real)
    ensures Min(a, b) <= c <= Max(a, b)
    ensures Min(a, b) <= v <= Max(a, b) ==> c == v
  {
    Max(Min(a, b), Min(v, Max(a, b)))
  }

  /** No value of the interval is nearer to `v` than the clamped one. */
  lemma ClampIsNearest(v: real, a: real, b: real, w: real)
    requires Min(a, b) <= w <= Max(a, b)
    ensures Abs(v - ClampBetween(v, a, b)) <= Abs(v - w)
  {
  }

  /** The panel's clamp, which takes `start` as the lower bound and `end` as
      the upper: when `start > end` it always yields `start`. */
  function ClampAsWritten(v: real, start: real, end: real): (c: real)
    ensures Min(start, end) <= c <= Max(start, end)
    ensures start <= end ==> c == ClampBetween(v, start, end)
    ensures start > end ==> c == start
  {
    Max(start, Min(v, end))
  }

  /** The side rule of the rectangle highlight: a cursor in the band of a
      horizontal side moves to that side at `x`; one in the band of a
      vertical side then moves to that side at `y`, overriding; outside all
      bands the nearest feature point stays. */
  function BandPoint(s: Shape, m: Position, closest: Position, x: real, y: real): Position
  {
    var onHorizontal :=
      if s.startY - SnapThreshold <= m.y <= s.startY + SnapThreshold then Position(x, s.startY)
      else if s.endY - SnapThreshold <= m.y <= s.endY + SnapThreshold then Position(x, s.endY)
      else closest;
    if s.startX - SnapThreshold <= m.x <= s.startX + SnapThreshold then Position(s.startX, y)
    else if s.endX - SnapThreshold <= m.x <= s.endX + SnapThreshold then Position(s.endX, y)
    else onHorizontal
  }

  /** The rectangle highlight as the panel computes it. */
  function RectangleHighlightPointAsWritten(s: Shape, m: Position): Position
  {
    var c := Closest(RectangleSnapPoints(s), m);
    if Within(m, c, SnapThreshold) then c
    else BandPoint(s, m, c, ClampAsWritten(m.x, s.startX, s.endX), ClampAsWritten(m.y, s.startY, s.endY))
  }

  /** The rectangle highlight with the clamp taken between the smaller and
      the larger coordinate, so it works for rectangles drawn in any
      direction. */
  function RectangleHighlightPoint(s: Shape, m: Position): Position
  {
    var c := Closest(RectangleSnapPoints(s), m);
    if Within(m, c, SnapThreshold) then c
    else BandPoint(s, m, c, ClampBetween(m.x, s.startX, s.endX), ClampBetween(m.y, s.startY, s.endY))
  }

  /** For a rectangle drawn from its top-left corner the panel's clamp and
      the corrected one place the highlight at the same point. */
  lemma RectangleHighlightsAgree(s: Shape, m: Position)
    requires s.startX <= s.endX && s.startY <= s.endY
    ensures RectangleHighlightPointAsWritten(s, m) == RectangleHighlightPoint(s, m)
  {
  }

  /** `p` lies on the outline of the rectangle with opposite corners `start`
      and `end`. */
  predicate OnOutline(p: Position, s: Shape)
  {
    ((p.x == s.startX || p.x == s.endX) && Min(s.startY, s.endY) <= p.y <= Max(s.startY, s.endY))
    || ((p.y == s.startY || p.y == s.endY) && Min(s.startX, s.endX) <= p.x <= Max(s.startX, s.endX))
  }

  lemma SidePointOnOutline(s: Shape, k: int, t: real)
    requires 0 <= k < 4 && 0.0 <= t <= 1.0
    ensures OnOutline(Lerp(RectangleSides(s)[k].a, RectangleSides(s)[k].b, t), s)
  {
    var a, b := RectangleSides(s)[k].a, RectangleSides(s)[k].b;
    LerpBetween(a.x, b.x, t);
    LerpBetween(a.y, b.y, t);
  }

  lemma FeaturePointOnOutline(s: Shape, i: int)
    requires 0 <= i < 16
    ensures OnOutline(RectangleSnapPoints(s)[i], s)
  {
    RectangleSnapPointOnSide(s, i);
    assert 0 <= RectangleSnapSide[i] < 4 && 0.0 <= RectangleSnapParam[i] <= 1.0;
    SidePointOnOutline(s, RectangleSnapSide[i], RectangleSnapParam[i]);
  }

  /** A coordinate difference is at most the threshold when the squared
      distance is. */
  lemma AxisWithin(e: real, f: real)
    requires Sq(e) + Sq(f) <= SnapThreshold * SnapThreshold
    ensures -SnapThreshold <= e <= SnapThreshold
  {
    SqNonNegative(f);
    if e > SnapThreshold {
      MulPositive(e - SnapThreshold, e + SnapThreshold);
    } else if e < -SnapThreshold {
      MulPositive(-e - SnapThreshold, -e + SnapThreshold);
    }
  }

  /** Coordinate differences within the threshold put the squared distance
      within twice the threshold squared. */
  lemma BoxedDistance(e: real, f: real)
    requires -SnapThreshold <= e <= SnapThreshold && -SnapThreshold <= f <= SnapThreshold
    ensures Sq(e) + Sq(f) <= 2.0 * SnapThreshold * SnapThreshold
  {
    AbsSquaresOrdered(e, SnapThreshold);
    AbsSquaresOrdered(f, SnapThreshold);
  }

  /** If some outline point is within the threshold of the cursor on both
      axes, so is the band point, which lies on the outline too. */
  lemma BandPointNear(s: Shape, m: Position, q: Position, c: Position)
    requires OnOutline(q, s)
    requires -SnapThreshold <= m.x - q.x <= SnapThreshold && -SnapThreshold <= m.y - q.y <= SnapThreshold
    ensures var h := BandPoint(s, m, c, ClampBetween(m.x, s.startX, s.endX), ClampBetween(m.y, s.startY, s.endY));
      -SnapThreshold <= m.x - h.x <= SnapThreshold && -SnapThreshold <= m.y - h.y <= SnapThreshold
      && OnOutline(h, s)
  {
    ClampIsNearest(m.x, s.startX, s.endX, q.x);
    ClampIsNearest(m.y, s.startY, s.endY, q.y);
  }

  /** The side rule puts the highlight on the outline whenever the clamped
      coordinates lie between the rectangle's bounds. */
  lemma BandPointOnOutline(s: Shape, m: Position, c: Position, x: real, y: real)
    requires OnOutline(c, s)
    requires Min(s.startX, s.endX) <= x <= Max(s.startX, s.endX)
    requires Min(s.startY, s.endY) <= y <= Max(s.startY, s.endY)
    ensures OnOutline(BandPoint(s, m, c, x, y), s)
  {
  }

  /** The panel's clamp, though it strays from the cursor, still keeps the
      highlight on the rectangle's outline. */
  lemma RectangleHighlightAsWrittenOnOutline(s: Shape, m: Position)
    ensures OnOutline(RectangleHighlightPointAsWritten(s, m), s)
  {
    var pts := RectangleSnapPoints(s);
    var c := Closest(pts, m);
    var k :| 0 <= k < 16 && pts[k] == c;
    FeaturePointOnOutline(s, k);
    BandPointOnOutline(s, m, c, ClampAsWritten(m.x, s.startX, s.endX), ClampAsWritten(m.y, s.startY, s.endY));
  }

  /** When no feature point is in range, a rectangle that passed the test
      has a side point in range. */
  lemma SidePointInRange(s: Shape, m: Position) returns (q: Position)
    requires RectangleSnapTest(s, m)
    requires !Within(m, Closest(RectangleSnapPoints(s), m), SnapThreshold)
    ensures OnOutline(q, s) && Within(m, q, SnapThreshold)
  {
    var pts := RectangleSnapPoints(s);
    ClosestInRange(pts, m, SnapThreshold);
    var k :| 0 <= k < 4 && SideProjections(s, m)[k].Some?;
    var a, b := RectangleSides(s)[k].a, RectangleSides(s)[k].b;
    q := SideProjections(s, m)[k].value;
    var t :| 0.0 <= t <= 1.0 && q == Lerp(a, b, t);
    SidePointOnOutline(s, k, t);
  }

  /** Out of range of every feature point, the band rule still puts the
      highlight on the outline and within the threshold on each axis. */
  lemma BandHighlightNear(s: Shape, m: Position)
    requires RectangleSnapTest(s, m)
    requires !Within(m, Closest(RectangleSnapPoints(s), m), SnapThreshold)
    ensures OnOutline(RectangleHighlightPoint(s, m), s)
    ensures Dist2(m, RectangleHighlightPoint(s, m)) <= 2.0 * SnapThreshold * SnapThreshold
  {
    var c := Closest(RectangleSnapPoints(s), m);
    var q := SidePointInRange(s, m);
    AxisWithin(m.x - q.x, m.y - q.y);
    AxisWithin(m.y - q.y, m.x - q.x);
    BandPointNear(s, m, q, c);
    var h := RectangleHighlightPoint(s, m);
    assert h == BandPoint(s, m, c, ClampBetween(m.x, s.startX, s.endX), ClampBetween(m.y, s.startY, s.endY));
    BoxedDistance(m.x - h.x, m.y - h.y);
  }

  /** The rectangle highlight of a rectangle that passed the test lies on
      its outline, within the threshold of the cursor on each axis, so at
      most the threshold times the square root of two away. */
  lemma RectangleHighlightNear(s: Shape, m: Position)
    requires RectangleSnapTest(s, m)
    ensures OnOutline(RectangleHighlightPoint(s, m), s)
    ensures Dist2(m, RectangleHighlightPoint(s, m)) <= 2.0 * SnapThreshold * SnapThreshold
  {
    var pts := RectangleSnapPoints(s);
    var c := Closest(pts, m);
    if Within(m, c, SnapThreshold) {
      var k :| 0 <= k < 16 && pts[k] == c;
      FeaturePointOnOutline(s, k);
      assert SnapThreshold * SnapThreshold == 25.0;
    } else {
      BandHighlightNear(s, m);
    }
  }

  /** The rectangle from (100, 0) to (0, 100), drawn from its upper-right
      corner, and the cursor at (60, 2), just below its top side. */
  predicate StraysInput(s: Shape, m: Position)
  {
    s.startX == 100.0 && s.startY == 0.0 && s.endX == 0.0 && s.endY == 100.0
    && m.x == 60.0 && m.y == 2.0
  }

  /** There no feature point is in range, but the top side is. */
  lemma StraysSetting(s: Shape, m: Position)
    requires StraysInput(s, m)
    ensures !Within(m, Closest(RectangleSnapPoints(s), m), SnapThreshold)
    ensures SideProjections(s, m)[0] == Some(Position(60.0, 0.0))
  {
    var pts := RectangleSnapPoints(s);
    assert forall i :: 0 <= i < 16 ==> !Within(m, pts[i], SnapThreshold);
    ClosestInRange(pts, m, SnapThreshold);
    assert ProjectionParam(Position(100.0, 0.0), Position(0.0, 0.0), m) == 0.4;
  }

  lemma StraysAsWritten(s: Shape, m: Position)
    requires StraysInput(s, m)
    ensures RectangleHighlightPointAsWritten(s, m) == Position(100.0, 0.0)
  {
    StraysSetting(s, m);
    var c := Closest(RectangleSnapPoints(s), m);
    assert ClampAsWritten(m.x, s.startX, s.endX) == 100.0;
  }

  lemma StraysCorrected(s: Shape, m: Position)
    requires StraysInput(s, m)
    ensures RectangleHighlightPoint(s, m) == Position(60.0, 0.0)
  {
    StraysSetting(s, m);
    var c := Closest(RectangleSnapPoints(s), m);
    assert ClampBetween(m.x, s.startX, s.endX) == 60.0;
  }

  lemma StraysPassesTest(s: Shape, m: Position)
    requires StraysInput(s, m)
    ensures RectangleSnapTest(s, m)
  {
    StraysSetting(s, m);
    assert SideProjections(s, m)[0].Some?;
  }

  lemma StraysFar(s: Shape, m: Position)
    requires StraysInput(s, m)
    ensures Dist2(m, RectangleHighlightPointAsWritten(s, m)) > 2.0 * SnapThreshold * SnapThreshold
  {
    StraysAsWritten(s, m);
    assert SnapThreshold * SnapThreshold == 25.0;
    assert Dist2(m, Position(100.0, 0.0)) == 1604.0;
  }

  /** The panel's clamp sends the highlight of a rectangle drawn from its
      upper-right corner to that corner, far from a cursor next to the top
      side; the corrected clamp keeps it beside the cursor. */
  lemma RectangleHighlightAsWrittenStrays(s: Shape, m: Position)
    requires StraysInput(s, m)
    ensures RectangleSnapTest(s, m)
    ensures Dist2(m, RectangleHighlightPointAsWritten(s, m)) > 2.0 * SnapThreshold * SnapThreshold
    ensures RectangleHighlightPoint(s, m) == Position(60.0, 0.0)
  {
    StraysPassesTest(s, m);
    StraysFar(s, m);
    StraysCorrected(s, m);
  }

  /** When the nearest circle feature point is out of range, so is the
      centre, and the cursor is not on it. */
  lemma CenterOutOfRange(s: Shape, m: Position, sqrt: real -> real)
    requires RootAt(sqrt, RadiusSq(s))
    requires !Within(m, Closest(CircleSnapPoints(CalculateCircleProperties(s, sqrt)), m), SnapThreshold)
    ensures !Within(m, s.Start(), SnapThreshold) && m != s.Start()
  {
    var pts := CircleSnapPoints(CalculateCircleProperties(s, sqrt));
    ClosestInRange(pts, m, SnapThreshold);
    assert pts[4] == s.Start();
    Dist2ZeroIffSame(m, s.Start());
  }

  /** The circle highlight: the nearest tangent point or centre if in range,
      else the point of the circle towards the cursor if in range, else the
      previous highlight unchanged.  For a circle that passed the test the
      last case never happens. */
  function CircleHighlight(s: Shape, m: Position, prev: Option<Shape>, sqrt: real -> real): (h: Option<Shape>)
    requires RootAt(sqrt, RadiusSq(s)) && RootAt(sqrt, Dist2(m, s.Start()))
    ensures CircleSnapTest(s, m, sqrt) ==>
      h.Some? && h.value == Moved(s, h.value.Start()) && Within(m, h.value.Start(), SnapThreshold)
      && (h.value.Start() == s.Start() || Dist2(h.value.Start(), s.Start()) == RadiusSq(s))
  {
    var pts := CircleSnapPoints(CalculateCircleProperties(s, sqrt));
    var c := Closest(pts, m);
    if Within(m, c, SnapThreshold) then
      var k :| 0 <= k < 5 && pts[k] == c;
      Some(Moved(s, c))
    else
      CenterOutOfRange(s, m, sqrt);
      match NearestCircleBoundaryPoint(s, m, SnapThreshold, sqrt)
      case Some(p) => Some(Moved(s, p))
      case None => prev
  }

  /** The highlight for the shape the test picked, by kind. */
  function SnappedHighlight(s: Shape, m: Position, prev: Option<Shape>, sqrt: real -> real): (h: Option<Shape>)
    requires RootsAvailable(s, m, sqrt) && PassesSnapTest(s, m, sqrt)
    ensures h.Some? && h.value == Moved(s, h.value.Start())
    ensures s.kind != Rectangle ==> Within(m, h.value.Start(), SnapThreshold)
    ensures s.kind == Line ==> OnSegment(h.value.Start(), s.Start(), s.End())
    ensures s.kind == Rectangle ==>
      OnOutline(h.value.Start(), s) && Dist2(m, h.value.Start()) <= 2.0 * SnapThreshold * SnapThreshold
    ensures s.kind == Circle ==>
      h.value.Start() == s.Start() || Dist2(h.value.Start(), s.Start()) == RadiusSq(s)
  {
    match s.kind
    case Line => Some(Moved(s, LineHighlightPoint(s, m)))
    case Rectangle => RectangleHighlightNear(s, m); Some(Moved(s, RectangleHighlightPoint(s, m)))
    case Circle => CircleHighlight(s, m, prev, sqrt)
  }

  /** The previous highlight never shows through once a shape is snapped. */
  lemma SnappedHighlightIgnoresPrevious(s: Shape, m: Position, p1: Option<Shape>, p2: Option<Shape>, sqrt: real -> real)
    requires RootsAvailable(s, m, sqrt) && PassesSnapTest(s, m, sqrt)
    ensures SnappedHighlight(s, m, p1, sqrt) == SnappedHighlight(s, m, p2, sqrt)
  {
    if s.kind == Circle {
      var pts := CircleSnapPoints(CalculateCircleProperties(s, sqrt));
      if !Within(m, Closest(pts, m), SnapThreshold) {
        CenterOutOfRange(s, m, sqrt);
      }
    }
  }

  /** The grid highlight: a point shape on the nearest grid crossing, if that
      is in range. */
  function GridHighlight(m: Position, g: real, freshId: string): (h: Option<Shape>)
    requires g > 0.0
    ensures h.None? <==> forall i: int, j: int :: !Within(m, Position(Multiple(i, g), Multiple(j, g)), SnapThreshold)
    ensures h.Some? ==> h.value.kind == Point && h.value.id == freshId && h.value.Start() == h.value.End()
                        && OnGrid(h.value.startX, g) && OnGrid(h.value.startY, g)
                        && Within(m, h.value.Start(), SnapThreshold)
  {
    NearestGridPointNone(m, SnapThreshold, g);
    match NearestGridPoint(m, SnapThreshold, g)
    case Some(p) => Some(Shape(freshId, p.x, p.y, p.x, p.y, Point, false))
    case None => None
  }

  /** The highlight after a mouse move: the first shape passing the test
      decides it, and with none the grid does. */
  function NextHighlight(shapes: seq<Shape>, m: Position, prev: Option<Shape>, g: real,
                         freshId: string, sqrt: real -> real): (h: Option<Shape>)
    requires g > 0.0
    requires forall i :: 0 <= i < |shapes| ==> RootsAvailable(shapes[i], m, sqrt)
    ensures FindSnapped(shapes, m, sqrt).Some? ==>
      h.Some? && h.value == Moved(FindSnapped(shapes, m, sqrt).value, h.value.Start())
    ensures FindSnapped(shapes, m, sqrt).Some? ==>
      h == SnappedHighlight(FindSnapped(shapes, m, sqrt).value, m, prev, sqrt)
    ensures FindSnapped(shapes, m, sqrt).None? ==> h == GridHighlight(m, g, freshId)
  {
    match FindSnapped(shapes, m, sqrt)
    case Some(s) => SnappedHighlight(s, m, prev, sqrt)
    case None => GridHighlight(m, g, freshId)
  }

  /** The panel's computation of the highlight for a snapped shape, scanning
      the feature points and then applying the kind's rule; a highlight
      that is not replaced stays as it was. */
  method ComputeSnappedHighlight(s: Shape, m: Position, prev: Option<Shape>, sqrt: real -> real)
    returns (h: Option<Shape>)
    requires RootsAvailable(s, m, sqrt) && PassesSnapTest(s, m, sqrt)
    ensures h == SnappedHighlight(s, m, prev, sqrt)
  {
    h := prev;
    if s.kind == Line {
      var closestPoint, minDistance := ClosestPoint(LineSnapPoints(s), m);
      if minDistance <= SnapThreshold * SnapThreshold {
        h := Some(Moved(s, closestPoint));
      } else {
        LineProjectionAvailable(s, m);
        var t := Clamp01(ProjectionParam(s.Start(), s.End(), m));
        h := Some(Moved(s, Lerp(s.Start(), s.End(), t)));
      }
    } else if s.kind == Rectangle {
      var closestPoint, minDistance := ClosestPoint(RectangleSnapPoints(s), m);
      if minDistance > SnapThreshold * SnapThreshold {
        if s.startY - SnapThreshold <= m.y <= s.startY + SnapThreshold {
          closestPoint := Position(ClampBetween(m.x, s.startX, s.endX), s.startY);
        } else if s.endY - SnapThreshold <= m.y <= s.endY + SnapThreshold {
          closestPoint := Position(ClampBetween(m.x, s.startX, s.endX), s.endY);
        }
        if s.startX - SnapThreshold <= m.x <= s.startX + SnapThreshold {
          closestPoint := Position(s.startX, ClampBetween(m.y, s.startY, s.endY));
        } else if s.endX - SnapThreshold <= m.x <= s.endX + SnapThreshold {
          closestPoint := Position(s.endX, ClampBetween(m.y, s.startY, s.endY));
        }
      }
      h := Some(Moved(s, closestPoint));
    } else if s.kind == Circle {
      var closestPoint, minDistance := ClosestPoint(CircleSnapPoints(CalculateCircleProperties(s, sqrt)), m);
      if minDistance <= SnapThreshold * SnapThreshold {
        h := Some(Moved(s, closestPoint));
      } else {
        CenterOutOfRange(s, m, sqrt);
        var boundary := NearestCircleBoundaryPoint(s, m, SnapThreshold, sqrt);
        if boundary.Some? {
          h := Some(Moved(s, boundary.value));
        }
      }
    }
  }
}
