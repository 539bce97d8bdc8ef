/** The snap resolver: the feature points of each kind of shape, the point
    of a shape the cursor snaps to, the scan over all shapes, and the grid. */
module Snap {
  import opened Shapes
  import opened Geometry

  /** How close, in pixels, the cursor must come to snap. */
  const SnapThreshold: real := 5.0

  // ---------------------------------------------------------------- grid

  /** `Math.round`: the nearest integer, a half rounded up. */
  function Round(v: real): int
  {
    (v + 0.5).Floor
  }

  lemma RoundBounds(v: real)
    ensures -0.5 <= v - Round(v) as real < 0.5
  {
  }

  /** `v` is a whole multiple of the grid size `g`. */
  predicate OnGrid(v: real, g: real)
    requires g > 0.0
  {
    (v / g).Floor as real == v / g
  }

  /** The `k`-th multiple of the grid size. */
  function Multiple(k: int, g: real): real
  {
    k as real * g
  }

  lemma MulDiv(k: int, g: real)
    requires g > 0.0
    ensures Multiple(k, g) / g == k as real
  {
  }

  /** Every whole multiple of `g` is on the grid. */
  lemma MultipleOnGrid(k: int, g: real)
    requires g > 0.0
    ensures OnGrid(Multiple(k, g), g)
  {
    MulDiv(k, g);
  }

  lemma ScaleDifference(v: real, k: int, g: real)
    requires g > 0.0
    ensures v - Multiple(k, g) == (v / g - k as real) * g
  {
  }

  lemma HalfScaled(e: real, g: real)
    requires g > 0.0 && -0.5 <= e <= 0.5
    ensures Abs(e * g) <= g / 2.0
  {
    if e >= 0.0 {
      assert e * g <= 0.5 * g;
    } else {
      assert (-e) * g <= 0.5 * g;
    }
  }

  /** Within half a cell of the `k`-th multiple in grid units is within half
      a cell of it in pixels. */
  lemma WithinHalfCell(v: real, k: int, g: real)
    requires g > 0.0 && -0.5 <= v / g - k as real <= 0.5
    ensures Abs(v - Multiple(k, g)) <= g / 2.0
  {
    ScaleDifference(v, k, g);
    HalfScaled(v / g - k as real, g);
  }

  lemma SnapOnGrid(value: real, g: real)
    requires g > 0.0
    ensures OnGrid(Multiple(Round(value / g), g), g)
  {
    MultipleOnGrid(Round(value / g), g);
  }

  lemma SnapWithinHalfCell(value: real, g: real)
    requires g > 0.0
    ensures Abs(value - Multiple(Round(value / g), g)) <= g / 2.0
  {
    RoundBounds(value / g);
    WithinHalfCell(value, Round(value / g), g);
  }

  /** The multiple of `g` nearest to `value`. */
  function SnapToGrid(value: real, g: real): (r: real)
    requires g > 0.0
    ensures OnGrid(r, g)
    ensures Abs(value - r) <= g / 2.0
  {
    SnapOnGrid(value, g);
    SnapWithinHalfCell(value, g);
    Multiple(Round(value / g), g)
  }

  lemma RoundCongruent(u: real, v: real)
    requires u == v
    ensures Round(u) == Round(v)
  {
  }

  lemma RoundOfMultiple(k: int, g: real)
    requires g > 0.0
    ensures Round(Multiple(k, g) / g) == k
  {
    MulDiv(k, g);
    RoundCongruent(Multiple(k, g) / g, k as real);
  }

  /** Snapping a point that is already on the grid leaves it where it is. */
  lemma SnapToGridIdempotent(value: real, g: real)
    requires g > 0.0
    ensures SnapToGrid(SnapToGrid(value, g), g) == SnapToGrid(value, g)
  {
    RoundOfMultiple(Round(value / g), g);
  }

  /** `Round` gives an integer no farther from `u` than any other. */
  lemma RoundIsNearestInteger(u: real, j: int)
    ensures Abs(u - Round(u) as real) <= Abs(u - j as real)
  {
    var k := Round(u);
    RoundBounds(u);
    if j > k {
      assert j as real >= k as real + 1.0;
    } else if j < k {
      assert j as real <= k as real - 1.0;
    }
  }

  /** `e` grid units, in pixels. */
  function Scaled(e: real, g: real): real
  {
    e * g
  }

  lemma DistanceToMultiple(v: real, j: int, g: real)
    requires g > 0.0
    ensures Abs(v - Multiple(j, g)) == Scaled(Abs(v / g - j as real), g)
  {
    ScaleDifference(v, j, g);
    var e := v / g - j as real;
    if e >= 0.0 {
      assert e * g >= 0.0;
    } else {
      assert (-e) * g > 0.0;
    }
  }

  lemma ScaledOrdered(u: real, v: real, g: real)
    requires g > 0.0 && u <= v
    ensures Scaled(u, g) <= Scaled(v, g)
  {
  }

  /** `SnapToGrid` picks a multiple of the grid size no farther from the value
      than any other multiple. */
  lemma SnapToGridIsNearest(value: real, g: real, j: int)
    requires g > 0.0
    ensures Abs(value - SnapToGrid(value, g)) <= Abs(value - Multiple(j, g))
  {
    DistanceToMultiple(value, Round(value / g), g);
    DistanceToMultiple(value, j, g);
    RoundIsNearestInteger(value / g, j);
    ScaledOrdered(Abs(value / g - Round(value / g) as real), Abs(value / g - j as real), g);
  }

  // ------------------------------------------------------ feature points

  /** Where along a line its five feature points sit, in list order: start,
      end, middle, first quarter, third quarter. */
  const LineSnapParams: seq<real> := [0.0, 1.0, 0.5, 0.25, 0.75]

  /** The five feature points of a line, each the point at its parameter in
      `LineSnapParams`. */
  function LineSnapPoints(s: Shape): (pts: seq<Position>)
    ensures |pts| == |LineSnapParams| == 5
    ensures forall i :: 0 <= i < 5 ==> pts[i] == Lerp(s.Start(), s.End(), LineSnapParams[i])
  {
    [Position(s.startX, s.startY),
     Position(s.endX, s.endY),
     Position((s.startX + s.endX) / 2.0, (s.startY + s.endY) / 2.0),
     Position(s.startX + (s.endX - s.startX) / 4.0, s.startY + (s.endY - s.startY) / 4.0),
     Position(s.startX + (s.endX - s.startX) * 0.75, s.startY + (s.endY - s.startY) * 0.75)]
  }

  /** Every feature point of a line lies on it. */
  lemma LineSnapPointsOnLine(s: Shape, i: int)
    requires 0 <= i < 5
    ensures OnSegment(LineSnapPoints(s)[i], s.Start(), s.End())
  {
    assert LineSnapPoints(s)[i] == Lerp(s.Start(), s.End(), LineSnapParams[i]);
  }

  /** The four sides of a rectangle drawn from `start` to `end`: top, right,
      bottom, left, each starting where the one before it ends. */
  function RectangleSides(s: Shape): (sides: seq<Segment>)
    ensures |sides| == 4
    ensures sides[0].a == s.Start() && sides[1].b == s.End()
    ensures sides[0].b == sides[1].a && sides[1].b == sides[2].a
            && sides[2].b == sides[3].a && sides[3].b == sides[0].a
    ensures sides[0].a.y == sides[0].b.y && sides[2].a.y == sides[2].b.y
    ensures sides[1].a.x == sides[1].b.x && sides[3].a.x == sides[3].b.x
  {
    [Segment(Position(s.startX, s.startY), Position(s.endX, s.startY)),
     Segment(Position(s.endX, s.startY), Position(s.endX, s.endY)),
     Segment(Position(s.endX, s.endY), Position(s.startX, s.endY)),
     Segment(Position(s.startX, s.endY), Position(s.startX, s.startY))]
  }

  /** For each of the sixteen rectangle feature points, the side it lies on
      and where along that side. */
  const RectangleSnapSide: seq<int> := [0, 0, 1, 2, 0, 2, 3, 1, 0, 2, 0, 2, 3, 1, 3, 1]
  const RectangleSnapParam: seq<real> :=
    [0.0, 1.0, 1.0, 1.0, 0.5, 0.5, 0.5, 0.5, 0.25, 0.75, 0.75, 0.25, 0.75, 0.25, 0.25, 0.75]

  /** The sixteen feature points of a rectangle: corners, side midpoints, then
      quarter points of the horizontal and of the vertical sides. */
  function RectangleSnapPoints(s: Shape): (pts: seq<Position>)
    ensures |pts| == |RectangleSnapSide| == |RectangleSnapParam| == 16
  {
    var sx, sy, ex, ey := s.startX, s.startY, s.endX, s.endY;
    [Position(sx, sy), Position(ex, sy), Position(ex, ey), Position(sx, ey),
     Position((sx + ex) / 2.0, sy), Position((sx + ex) / 2.0, ey),
     Position(sx, (sy + ey) / 2.0), Position(ex, (sy + ey) / 2.0),
     Position(sx + (ex - sx) / 4.0, sy), Position(sx + (ex - sx) / 4.0, ey),
     Position(sx + (ex - sx) * 0.75, sy), Position(sx + (ex - sx) * 0.75, ey),
     Position(sx, sy + (ey - sy) / 4.0), Position(ex, sy + (ey - sy) / 4.0),
     Position(sx, sy + (ey - sy) * 0.75), Position(ex, sy + (ey - sy) * 0.75)]
  }

  /** The first four feature points are the corners, in order round the
      rectangle from the start through the end. */
  lemma RectangleSnapPointsCorners(s: Shape)
    ensures RectangleSnapPoints(s)[..4] ==
      [s.Start(), Position(s.endX, s.startY), s.End(), Position(s.startX, s.endY)]
  {
  }

  /** Each feature point of a rectangle is the point at its parameter along
      its side, so it shares a coordinate with a corner. */
  lemma RectangleSnapPointOnSide(s: Shape, i: int)
    requires 0 <= i < 16
    ensures RectangleSnapPoints(s)[i] ==
      Lerp(RectangleSides(s)[RectangleSnapSide[i]].a, RectangleSides(s)[RectangleSnapSide[i]].b, RectangleSnapParam[i])
    ensures var p := RectangleSnapPoints(s)[i];
      p.x == s.startX || p.x == s.endX || p.y == s.startY || p.y == s.endY
  {
  }

  /** Every feature point of a rectangle lies on one of its sides. */
  lemma RectangleSnapPointsOnSides(s: Shape, i: int)
    requires 0 <= i < 16
    ensures exists k :: 0 <= k < 4 && OnSegment(RectangleSnapPoints(s)[i], RectangleSides(s)[k].a, RectangleSides(s)[k].b)
  {
    RectangleSnapPointOnSide(s, i);
    var k := RectangleSnapSide[i];
    assert RectangleSnapPoints(s)[i] ==
      Lerp(RectangleSides(s)[k].a, RectangleSides(s)[k].b, RectangleSnapParam[i]);
  }

  /** The centre and radius of a circle drawn from its centre `start` to a
      point `end` on its circumference. */
  datatype CircleProperties = CircleProperties(center: Position, radius: real)

  /** The square of a circle shape's radius. */
  function RadiusSq(s: Shape): real
  {
    Dist2(s.End(), s.Start())
  }

  function CalculateCircleProperties(s: Shape, sqrt: real -> real): (c: CircleProperties)
    requires RootAt(sqrt, RadiusSq(s))
    ensures c.center == s.Start()
    ensures c.radius >= 0.0 && c.radius * c.radius == RadiusSq(s)
  {
    CircleProperties(s.Start(), sqrt(RadiusSq(s)))
  }

  lemma TangentOnCircle(r: real)
    ensures Sq(-r) + Sq(0.0) == r * r && Sq(r) + Sq(0.0) == r * r
            && Sq(0.0) + Sq(-r) == r * r && Sq(0.0) + Sq(r) == r * r
  {
  }

  /** The four tangent points, left, right, top, bottom, each on the circle,
      and then the centre. */
  function CircleSnapPoints(c: CircleProperties): (pts: seq<Position>)
    ensures |pts| == 5 && pts[4] == c.center
    ensures forall i :: 0 <= i < 4 ==> Dist2(pts[i], c.center) == c.radius * c.radius
  {
    TangentOnCircle(c.radius);
    [Position(c.center.x - c.radius, c.center.y),
     Position(c.center.x + c.radius, c.center.y),
     Position(c.center.x, c.center.y - c.radius),
     Position(c.center.x, c.center.y + c.radius),
     c.center]
  }

  // ------------------------------------------------ nearest feature point

  /** The first point, in list order, within `threshold` of the cursor `m`
      (not necessarily the nearest one). */
  function NearestPoint(points: seq<Position>, m: Position, threshold: real): (r: Option<Position>)
    ensures r.None? <==> forall i :: 0 <= i < |points| ==> !Within(m, points[i], threshold)
    ensures r.Some? ==> exists k :: 0 <= k < |points| && points[k] == r.value
                          && Within(m, r.value, threshold)
                          && forall j :: 0 <= j < k ==> !Within(m, points[j], threshold)
  {
    if |points| == 0 then None
    else if Within(m, points[0], threshold) then Some(points[0])
    else
      var r := NearestPoint(points[1..], m, threshold);
      assert forall i :: 1 <= i < |points| ==> points[i] == points[1..][i - 1];
      if r.Some? then
        var k :| 0 <= k < |points| - 1 && points[1..][k] == r.value && Within(m, r.value, threshold)
                 && forall j :: 0 <= j < k ==> !Within(m, points[1..][j], threshold);
        assert points[k + 1] == r.value;
        r
      else r
  }

  // ---------------------------------------------- nearest point of a path

  /** The point of the segment from `a` to `b` nearest to the cursor, if it is
      within `threshold`.  A segment of length zero yields nothing: the source
      divides zero by zero there and the comparison with the threshold fails. */
  function NearestLinePathPoint(a: Position, b: Position, m: Position, threshold: real): (r: Option<Position>)
    ensures r.Some? ==> a != b && OnSegment(r.value, a, b) && Within(m, r.value, threshold)
  {
    if a == b then None
    else
      var p := Lerp(a, b, Clamp01(ProjectionParam(a, b, m)));
      if Within(m, p, threshold) then Some(p) else None
  }

  /** What comes back is the nearest point of the segment, and nothing comes
      back exactly when the segment is empty or no point of it is within the
      threshold. */
  lemma NearestLinePathPointIsNearest(a: Position, b: Position, m: Position, threshold: real)
    ensures NearestLinePathPoint(a, b, m, threshold).Some? ==>
      forall s :: 0.0 <= s <= 1.0 ==> Dist2(m, NearestLinePathPoint(a, b, m, threshold).value) <= Dist2(m, Lerp(a, b, s))
    ensures NearestLinePathPoint(a, b, m, threshold).None? <==>
      a == b || forall s :: 0.0 <= s <= 1.0 ==> !Within(m, Lerp(a, b, s), threshold)
  {
    if a != b {
      forall s | 0.0 <= s <= 1.0
        ensures Dist2(m, Lerp(a, b, Clamp01(ProjectionParam(a, b, m)))) <= Dist2(m, Lerp(a, b, s))
      {
        ClampedFootIsNearestOnSegment(a, b, m, s);
      }
    }
  }

  /** The line snap: its first feature point in range, else the nearest point
      of the segment if that is in range. */
  function NearestLinePoint(s: Shape, m: Position): (r: Option<Position>)
    ensures NearestPoint(LineSnapPoints(s), m, SnapThreshold).Some? ==>
      r == NearestPoint(LineSnapPoints(s), m, SnapThreshold) && r.value in LineSnapPoints(s)
    ensures r.Some? ==> Within(m, r.value, SnapThreshold) && OnSegment(r.value, s.Start(), s.End())
  {
    match NearestPoint(LineSnapPoints(s), m, SnapThreshold)
    case Some(p) =>
      var k :| 0 <= k < 5 && LineSnapPoints(s)[k] == p && Within(m, p, SnapThreshold)
               && forall j :: 0 <= j < k ==> !Within(m, LineSnapPoints(s)[j], SnapThreshold);
      LineSnapPointsOnLine(s, k);
      Some(p)
    case None => NearestLinePathPoint(s.Start(), s.End(), m, SnapThreshold)
  }

  /** A line yields nothing exactly when no point of it is in range. */
  lemma NearestLinePointNone(s: Shape, m: Position)
    ensures NearestLinePoint(s, m).None? <==>
      forall t :: 0.0 <= t <= 1.0 ==> !Within(m, Lerp(s.Start(), s.End(), t), SnapThreshold)
  {
    NearestLinePathPointIsNearest(s.Start(), s.End(), m, SnapThreshold);
    if NearestPoint(LineSnapPoints(s), m, SnapThreshold).Some? {
      var p := NearestPoint(LineSnapPoints(s), m, SnapThreshold).value;
      var k :| 0 <= k < 5 && LineSnapPoints(s)[k] == p && Within(m, p, SnapThreshold);
      assert p == Lerp(s.Start(), s.End(), LineSnapParams[k]);
    } else if s.Start() == s.End() {
      forall t | 0.0 <= t <= 1.0
        ensures !Within(m, Lerp(s.Start(), s.End(), t), SnapThreshold)
      {
        assert Lerp(s.Start(), s.End(), t) == s.Start() == LineSnapPoints(s)[0];
      }
    }
  }

  /** The nearest point of each side of a rectangle, where one is in range:
      side `k`'s candidate is a point of that side within the threshold and
      no farther than any other point of it, and it is missing exactly when
      the side has no length or no point of it is in range. */
  function SideProjections(s: Shape, m: Position): (cands: seq<Option<Position>>)
    ensures |cands| == 4
    ensures forall k :: 0 <= k < 4 ==>
      cands[k] == NearestLinePathPoint(RectangleSides(s)[k].a, RectangleSides(s)[k].b, m, SnapThreshold)
    ensures forall k :: 0 <= k < 4 && cands[k].Some? ==>
      OnSegment(cands[k].value, RectangleSides(s)[k].a, RectangleSides(s)[k].b)
      && Within(m, cands[k].value, SnapThreshold)
      && forall t :: 0.0 <= t <= 1.0 ==>
           Dist2(m, cands[k].value) <= Dist2(m, Lerp(RectangleSides(s)[k].a, RectangleSides(s)[k].b, t))
    ensures forall k :: 0 <= k < 4 ==>
      (cands[k].None? <==>
         (RectangleSides(s)[k].a == RectangleSides(s)[k].b
          || forall t :: 0.0 <= t <= 1.0 ==>
               !Within(m, Lerp(RectangleSides(s)[k].a, RectangleSides(s)[k].b, t), SnapThreshold)))
  {
    var sides := RectangleSides(s);
    forall k | 0 <= k < 4
      ensures var r := NearestLinePathPoint(sides[k].a, sides[k].b, m, SnapThreshold);
        (r.Some? ==> forall t :: 0.0 <= t <= 1.0 ==> Dist2(m, r.value) <= Dist2(m, Lerp(sides[k].a, sides[k].b, t)))
        && (r.None? <==>
              (sides[k].a == sides[k].b
               || forall t :: 0.0 <= t <= 1.0 ==> !Within(m, Lerp(sides[k].a, sides[k].b, t), SnapThreshold)))
    {
      NearestLinePathPointIsNearest(sides[k].a, sides[k].b, m, SnapThreshold);
    }
    seq(4, k requires 0 <= k < 4 => NearestLinePathPoint(sides[k].a, sides[k].b, m, SnapThreshold))
  }

  /** Scans the sides in order and keeps the in-range projection strictly
      nearer than every earlier one. */
  method NearestRectangleSidesPoint(s: Shape, m: Position) returns (nearestPoint: Option<Position>)
    ensures nearestPoint == NearestAmong(SideProjections(s, m), m)
  {
    var sides := RectangleSides(s);
    ghost var cands := SideProjections(s, m);
    nearestPoint := None;
    var minDistance := 0.0;
    for i := 0 to 4
      invariant nearestPoint == NearestAmong(cands[..i], m)
      invariant nearestPoint.Some? ==> minDistance == Dist2(m, nearestPoint.value)
    {
      var point := NearestLinePathPoint(sides[i].a, sides[i].b, m, SnapThreshold);
      assert cands[..i + 1][..i] == cands[..i] && cands[..i + 1][i] == point;
      if point.Some? {
        var distance := Dist2(m, point.value);
        if nearestPoint.None? || distance < minDistance {
          minDistance := distance;
          nearestPoint := point;
        }
      }
    }
    assert cands[..4] == cands;
  }

  /** The side snap finds nothing exactly when no side has a point in range;
      otherwise it finds a side's nearest point, no farther than any other
      side's. */
  lemma RectangleSidesPointIsNearest(s: Shape, m: Position)
    ensures NearestAmong(SideProjections(s, m), m).None? <==>
      forall k :: 0 <= k < 4 ==> SideProjections(s, m)[k].None?
    ensures NearestAmong(SideProjections(s, m), m).Some? ==>
      Within(m, NearestAmong(SideProjections(s, m), m).value, SnapThreshold)
      && forall k :: 0 <= k < 4 && SideProjections(s, m)[k].Some? ==>
           Dist2(m, NearestAmong(SideProjections(s, m), m).value) <= Dist2(m, SideProjections(s, m)[k].value)
  {
    NearestAmongIsFirstNearest(SideProjections(s, m), m);
  }

  /** What the rectangle snap returns: its first feature point in range, else
      the nearest in-range side point. */
  function RectanglePoint(s: Shape, m: Position): Option<Position>
  {
    match NearestPoint(RectangleSnapPoints(s), m, SnapThreshold)
    case Some(p) => Some(p)
    case None => NearestAmong(SideProjections(s, m), m)
  }

  method NearestRectanglePoint(s: Shape, m: Position) returns (r: Option<Position>)
    ensures r == RectanglePoint(s, m)
  {
    var nearestPoint := NearestPoint(RectangleSnapPoints(s), m, SnapThreshold);
    if nearestPoint.Some? {
      return nearestPoint;
    }
    r := NearestRectangleSidesPoint(s, m);
  }

  /** A feature point in range always wins over the sides, and whatever the
      rectangle snap returns is in range. */
  lemma RectanglePointFacts(s: Shape, m: Position)
    ensures NearestPoint(RectangleSnapPoints(s), m, SnapThreshold).Some? ==>
      RectanglePoint(s, m) == NearestPoint(RectangleSnapPoints(s), m, SnapThreshold)
    ensures RectanglePoint(s, m).Some? ==> Within(m, RectanglePoint(s, m).value, SnapThreshold)
  {
    RectangleSidesPointIsNearest(s, m);
  }

  // ------------------------------------------------------------- circles

  /** The point at `k` times the way from the centre `c` towards `m`. */
  function RadialPoint(c: Position, m: Position, k: real): Position
  {
    Position(c.x + (m.x - c.x) * k, c.y + (m.y - c.y) * k)
  }

  lemma RadialAxis(c: real, m: real, k: real)
    ensures Sq((c + (m - c) * k) - c) == Sq(k) * Sq(m - c)
    ensures Sq(m - (c + (m - c) * k)) == Sq(1.0 - k) * Sq(m - c)
  {
  }

  lemma Distribute(k: real, u: real, v: real)
    ensures k * u + k * v == k * (u + v)
  {
  }

  /** The radial point is `k` times as far from the centre as `m`, and
      `1 - k` times as far from `m` as the centre is. */
  lemma RadialDistances(c: Position, m: Position, k: real)
    ensures Dist2(RadialPoint(c, m, k), c) == Sq(k) * Dist2(m, c)
    ensures Dist2(m, RadialPoint(c, m, k)) == Sq(1.0 - k) * Dist2(m, c)
  {
    RadialAxis(c.x, m.x, k);
    RadialAxis(c.y, m.y, k);
    Distribute(Sq(k), Sq(m.x - c.x), Sq(m.y - c.y));
    Distribute(Sq(1.0 - k), Sq(m.x - c.x), Sq(m.y - c.y));
  }

  lemma ScaleToRadius(r: real, d: real)
    requires d != 0.0
    ensures Sq(r / d) * (d * d) == r * r
    ensures Sq(1.0 - r / d) * (d * d) == Sq(d - r)
  {
    var k := r / d;
    assert k * d == r;
  }

  lemma SquareWithin(e: real, threshold: real)
    requires Abs(e) <= threshold
    ensures Sq(e) <= threshold * threshold
  {
    SquaresOrdered(Abs(e), threshold);
    assert Sq(Abs(e)) == Sq(e);
  }

  lemma RootOfZero(sqrt: real -> real)
    requires RootAt(sqrt, 0.0)
    ensures sqrt(0.0) == 0.0
  {
    if sqrt(0.0) != 0.0 {
      SqPositive(sqrt(0.0));
    }
  }

  lemma RootOfPositive(sqrt: real -> real, x: real)
    requires RootAt(sqrt, x) && x > 0.0
    ensures sqrt(x) > 0.0
  {
  }

  /** The point of the circle on the ray from the centre through the cursor,
      if the cursor is within `threshold` of the circumference.  With the
      cursor on the centre the source divides by zero, and that case is
      excluded unless the radius is beyond the threshold. */
  function NearestCircleBoundaryPoint(s: Shape, m: Position, threshold: real, sqrt: real -> real): (r: Option<Position>)
    requires RootAt(sqrt, RadiusSq(s)) && RootAt(sqrt, Dist2(m, s.Start()))
    requires m == s.Start() ==> sqrt(RadiusSq(s)) > threshold
    ensures r.None? <==> Abs(sqrt(Dist2(m, s.Start())) - sqrt(RadiusSq(s))) > threshold
    ensures r.Some? ==> Dist2(r.value, s.Start()) == RadiusSq(s) && Within(m, r.value, threshold)
  {
    if Abs(sqrt(Dist2(m, s.Start())) - sqrt(RadiusSq(s))) <= threshold then
      BoundaryDistanceNonZero(s, m, threshold, sqrt);
      BoundaryPointFacts(s, m, threshold, sqrt);
      Some(RadialPoint(s.Start(), m, sqrt(RadiusSq(s)) / sqrt(Dist2(m, s.Start()))))
    else None
  }

  lemma BoundaryDistanceNonZero(s: Shape, m: Position, threshold: real, sqrt: real -> real)
    requires RootAt(sqrt, RadiusSq(s)) && RootAt(sqrt, Dist2(m, s.Start()))
    requires m == s.Start() ==> sqrt(RadiusSq(s)) > threshold
    requires Abs(sqrt(Dist2(m, s.Start())) - sqrt(RadiusSq(s))) <= threshold
    ensures sqrt(Dist2(m, s.Start())) > 0.0
  {
    Dist2ZeroIffSame(m, s.Start());
    if m == s.Start() {
      RootOfZero(sqrt);
      assert false;
    }
    RootOfPositive(sqrt, Dist2(m, s.Start()));
  }

  lemma RadialPointOnCircle(c: Position, m: Position, r2: real, sqrt: real -> real)
    requires RootAt(sqrt, r2) && RootAt(sqrt, Dist2(m, c)) && sqrt(Dist2(m, c)) > 0.0
    ensures Dist2(RadialPoint(c, m, sqrt(r2) / sqrt(Dist2(m, c))), c) == r2
  {
    RadialDistances(c, m, sqrt(r2) / sqrt(Dist2(m, c)));
    ScaleToRadius(sqrt(r2), sqrt(Dist2(m, c)));
  }

  lemma RadialPointNearCursor(c: Position, m: Position, r2: real, threshold: real, sqrt: real -> real)
    requires RootAt(sqrt, r2) && RootAt(sqrt, Dist2(m, c)) && sqrt(Dist2(m, c)) > 0.0
    requires Abs(sqrt(Dist2(m, c)) - sqrt(r2)) <= threshold
    ensures Within(m, RadialPoint(c, m, sqrt(r2) / sqrt(Dist2(m, c))), threshold)
  {
    RadialDistances(c, m, sqrt(r2) / sqrt(Dist2(m, c)));
    ScaleToRadius(sqrt(r2), sqrt(Dist2(m, c)));
    SquareWithin(sqrt(Dist2(m, c)) - sqrt(r2), threshold);
  }

  lemma BoundaryPointFacts(s: Shape, m: Position, threshold: real, sqrt: real -> real)
    requires RootAt(sqrt, RadiusSq(s)) && RootAt(sqrt, Dist2(m, s.Start()))
    requires m == s.Start() ==> sqrt(RadiusSq(s)) > threshold
    requires Abs(sqrt(Dist2(m, s.Start())) - sqrt(RadiusSq(s))) <= threshold
    ensures sqrt(Dist2(m, s.Start())) > 0.0
    ensures Dist2(RadialPoint(s.Start(), m, sqrt(RadiusSq(s)) / sqrt(Dist2(m, s.Start()))), s.Start()) == RadiusSq(s)
    ensures Within(m, RadialPoint(s.Start(), m, sqrt(RadiusSq(s)) / sqrt(Dist2(m, s.Start()))), threshold)
  {
    BoundaryDistanceNonZero(s, m, threshold, sqrt);
    RadialPointOnCircle(s.Start(), m, RadiusSq(s), sqrt);
    RadialPointNearCursor(s.Start(), m, RadiusSq(s), threshold, sqrt);
  }

  /** The circle snap: its first tangent point or centre within
      `SnapThreshold`, else the boundary point if within `threshold`.  The
      boundary is only consulted once the centre is out of range, so the
      cursor is never on the centre there. */
  function NearestCirclePoint(s: Shape, m: Position, threshold: real, sqrt: real -> real): (r: Option<Position>)
    requires RootAt(sqrt, RadiusSq(s)) && RootAt(sqrt, Dist2(m, s.Start()))
    ensures NearestPoint(CircleSnapPoints(CalculateCircleProperties(s, sqrt)), m, SnapThreshold).Some? ==>
      r == NearestPoint(CircleSnapPoints(CalculateCircleProperties(s, sqrt)), m, SnapThreshold)
    ensures r.Some? ==> r.value == s.Start() || Dist2(r.value, s.Start()) == RadiusSq(s)
    ensures r.Some? ==> Within(m, r.value, SnapThreshold) || Within(m, r.value, threshold)
    ensures NearestPoint(CircleSnapPoints(CalculateCircleProperties(s, sqrt)), m, SnapThreshold).None? ==>
      m != s.Start()
    ensures NearestPoint(CircleSnapPoints(CalculateCircleProperties(s, sqrt)), m, SnapThreshold).None? ==>
      r == NearestCircleBoundaryPoint(s, m, threshold, sqrt)
  {
    var pts := CircleSnapPoints(CalculateCircleProperties(s, sqrt));
    match NearestPoint(pts, m, SnapThreshold)
    case Some(p) =>
      var k :| 0 <= k < 5 && pts[k] == p && Within(m, p, SnapThreshold);
      assert k < 4 ==> Dist2(p, s.Start()) == RadiusSq(s);
      Some(p)
    case None =>
      assert !Within(m, pts[4], SnapThreshold);
      Dist2ZeroIffSame(m, s.Start());
      NearestCircleBoundaryPoint(s, m, threshold, sqrt)
  }

  /** A circle offers nothing exactly when neither its centre nor any of its
      tangent points is within `SnapThreshold` and the cursor's distance
      from the circumference exceeds `threshold`. */
  lemma NearestCirclePointNone(s: Shape, m: Position, threshold: real, sqrt: real -> real)
    requires RootAt(sqrt, RadiusSq(s)) && RootAt(sqrt, Dist2(m, s.Start()))
    ensures NearestCirclePoint(s, m, threshold, sqrt).None? <==>
      (forall j :: 0 <= j < 5 ==> !Within(m, CircleSnapPoints(CalculateCircleProperties(s, sqrt))[j], SnapThreshold))
      && Abs(sqrt(Dist2(m, s.Start())) - sqrt(RadiusSq(s))) > threshold
  {
  }

  /** `sqrt` is exact wherever the snap of shape `s` takes a root: at a
      circle's squared radius and at the squared distance from its centre to
      the cursor. */
  ghost predicate RootsAvailable(s: Shape, m: Position, sqrt: real -> real)
  {
    s.kind == Circle ==> RootAt(sqrt, RadiusSq(s)) && RootAt(sqrt, Dist2(m, s.Start()))
  }

  /** The point shape `s` offers the cursor, by kind; a `Point` offers none.
      Whatever is offered is within `SnapThreshold` of the cursor. */
  function ShapeSnap(s: Shape, m: Position, sqrt: real -> real): (r: Option<Position>)
    requires RootsAvailable(s, m, sqrt)
    ensures s.kind == Point ==> r.None?
    ensures r.Some? ==> Within(m, r.value, SnapThreshold)
  {
    match s.kind
    case Line => NearestLinePoint(s, m)
    case Rectangle => RectanglePointFacts(s, m); RectanglePoint(s, m)
    case Circle => NearestCirclePoint(s, m, SnapThreshold, sqrt)
    case Point => None
  }

  /** The offer of the first shape, in list order, that offers a point. */
  function FirstShapeSnap(shapes: seq<Shape>, m: Position, sqrt: real -> real): (r: Option<Position>)
    requires forall i :: 0 <= i < |shapes| ==> RootsAvailable(shapes[i], m, sqrt)
    ensures r.None? <==> forall i :: 0 <= i < |shapes| ==> ShapeSnap(shapes[i], m, sqrt).None?
    ensures r.Some? ==> exists k :: 0 <= k < |shapes| && ShapeSnap(shapes[k], m, sqrt) == r
                          && forall j :: 0 <= j < k ==> ShapeSnap(shapes[j], m, sqrt).None?
  {
    if |shapes| == 0 then None
    else
      match ShapeSnap(shapes[0], m, sqrt)
      case Some(p) => Some(p)
      case None =>
        var r := FirstShapeSnap(shapes[1..], m, sqrt);
        assert forall i :: 1 <= i < |shapes| ==> shapes[i] == shapes[1..][i - 1];
        if r.Some? then
          var k :| 0 <= k < |shapes| - 1 && ShapeSnap(shapes[1..][k], m, sqrt) == r
                   && forall j :: 0 <= j < k ==> ShapeSnap(shapes[1..][j], m, sqrt).None?;
          assert ShapeSnap(shapes[k + 1], m, sqrt) == r;
          r
        else r
  }

  /** Scans the shapes in order and returns the first point offered. */
  method NearestShapeSnapPoint(m: Position, shapes: seq<Shape>, sqrt: real -> real) returns (r: Option<Position>)
    requires forall i :: 0 <= i < |shapes| ==> RootsAvailable(shapes[i], m, sqrt)
    ensures r == FirstShapeSnap(shapes, m, sqrt)
  {
    for i := 0 to |shapes|
      invariant FirstShapeSnap(shapes[i..], m, sqrt) == FirstShapeSnap(shapes, m, sqrt)
    {
      assert shapes[i..][0] == shapes[i] && shapes[i..][1..] == shapes[i + 1..];
      var shape := shapes[i];
      var nearestPoint: Option<Position> := None;
      match shape.kind {
        case Line =>
          nearestPoint := NearestLinePoint(shape, m);
        case Rectangle =>
          nearestPoint := NearestRectanglePoint(shape, m);
        case Circle =>
          nearestPoint := NearestCirclePoint(shape, m, SnapThreshold, sqrt);
        case Point =>
          continue;
      }
      if nearestPoint.Some? {
        return nearestPoint;
      }
    }
    return None;
  }

  // ---------------------------------------------------------- grid point

  /** The grid crossing nearest to the cursor, if it is within `threshold`. */
  function NearestGridPoint(m: Position, threshold: real, g: real): (r: Option<Position>)
    requires g > 0.0
    ensures r.Some? ==> OnGrid(r.value.x, g) && OnGrid(r.value.y, g) && Within(m, r.value, threshold)
  {
    var p := Position(SnapToGrid(m.x, g), SnapToGrid(m.y, g));
    if Within(m, p, threshold) then Some(p) else None
  }

  lemma SquareOfAbs(e: real)
    ensures Sq(Abs(e)) == Sq(e)
  {
  }

  lemma AbsSquaresOrdered(e: real, f: real)
    requires Abs(e) <= Abs(f)
    ensures Sq(e) <= Sq(f)
  {
    SquareOfAbs(e);
    SquareOfAbs(f);
    SquaresOrdered(Abs(e), Abs(f));
  }

  /** No grid crossing is nearer to the cursor than the snapped one. */
  lemma GridPointIsNearest(m: Position, g: real, i: int, j: int)
    requires g > 0.0
    ensures Dist2(m, Position(SnapToGrid(m.x, g), SnapToGrid(m.y, g)))
         <= Dist2(m, Position(Multiple(i, g), Multiple(j, g)))
  {
    SnapToGridIsNearest(m.x, g, i);
    SnapToGridIsNearest(m.y, g, j);
    AbsSquaresOrdered(m.x - SnapToGrid(m.x, g), m.x - Multiple(i, g));
    AbsSquaresOrdered(m.y - SnapToGrid(m.y, g), m.y - Multiple(j, g));
  }

  /** The grid snap finds nothing exactly when no grid crossing is within the
      threshold. */
  lemma NearestGridPointNone(m: Position, threshold: real, g: real)
    requires g > 0.0
    ensures NearestGridPoint(m, threshold, g).None? <==>
      forall i: int, j: int :: !Within(m, Position(Multiple(i, g), Multiple(j, g)), threshold)
  {
    if NearestGridPoint(m, threshold, g).None? {
      forall i: int, j: int
        ensures !Within(m, Position(Multiple(i, g), Multiple(j, g)), threshold)
      {
        GridPointIsNearest(m, g, i, j);
      }
    } else {
      assert Within(m, Position(Multiple(Round(m.x / g), g), Multiple(Round(m.y / g), g)), threshold);
    }
  }
}
