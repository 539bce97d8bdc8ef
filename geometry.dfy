/** The arithmetic every part of the engine shares: squared distances,
    interpolation along a segment, the projection of a point onto a line, and
    the "first strictly nearest candidate" scan that several loops perform.

    Coordinates are exact reals.  Where the source compares a Euclidean
    distance with a threshold, the model compares squared quantities, which is
    the same test for a non-negative threshold.  Where the source uses the
    VALUE of a square root, the host's `Math.sqrt` is passed in as `sqrt`, and
    a member requires `RootAt(sqrt, x)` exactly at the values it takes the root
    of. */
module Geometry {
  import opened Shapes

  function Min(a: real, b: real): real { if a <= b then a else b }
  function Max(a: real, b: real): real { if a >= b then a else b }
  function Abs(a: real): real { if a >= 0.0 then a else -a }

  function Sq(x: real): real { x * x }

  lemma SqNonNegative(x: real)
    ensures Sq(x) >= 0.0
  {
  }

  lemma MulPositive(a: real, b: real)
    requires a > 0.0 && b > 0.0
    ensures a * b > 0.0
  {
  }

  /** `Sq(x)` is positive for every non-zero `x`. */
  lemma SqPositive(x: real)
    requires x != 0.0
    ensures Sq(x) > 0.0
  {
    if x > 0.0 {
      calc {
        Sq(x);
      ==
        x * x;
      > { MulPositive(x, x); }
        0.0;
      }
    } else {
      calc {
        Sq(x);
      ==
        (-x) * (-x);
      > { MulPositive(-x, -x); }
        0.0;
      }
    }
  }

  /** The square of the Euclidean distance between `p` and `q`. */
  function Dist2(p: Position, q: Position): (d: real)
    ensures d >= 0.0
  {
    SqNonNegative(p.x - q.x);
    SqNonNegative(p.y - q.y);
    Sq(p.x - q.x) + Sq(p.y - q.y)
  }

  lemma Dist2Symmetric(p: Position, q: Position)
    ensures Dist2(p, q) == Dist2(q, p)
  {
    assert Sq(p.x - q.x) == Sq(q.x - p.x);
    assert Sq(p.y - q.y) == Sq(q.y - p.y);
  }

  /** `Math.hypot(p.x - q.x, p.y - q.y) <= threshold`. */
  predicate Within(p: Position, q: Position, threshold: real)
  {
    threshold >= 0.0 && Dist2(p, q) <= threshold * threshold
  }

  /** `sqrt` is exact at `x`: a non-negative real whose square is `x`. */
  ghost predicate RootAt(sqrt: real -> real, x: real)
  {
    sqrt(x) >= 0.0 && sqrt(x) * sqrt(x) == x
  }

  /** The point at parameter `t` along the way from `a` to `b`. */
  function Lerp(a: Position, b: Position, t: real): Position
  {
    Position(a.x + t * (b.x - a.x), a.y + t * (b.y - a.y))
  }

  /** `p` lies on the segment from `a` to `b`. */
  ghost predicate OnSegment(p: Position, a: Position, b: Position)
  {
    exists t :: 0.0 <= t <= 1.0 && p == Lerp(a, b, t)
  }

  function Clamp01(t: real): (c: real)
    ensures 0.0 <= c <= 1.0
    ensures 0.0 <= t <= 1.0 ==> c == t
  {
    Max(0.0, Min(1.0, t))
  }

  /** The dot product of `m - a` with `b - a`. */
  function Dot(a: Position, b: Position, m: Position): real
  {
    (m.x - a.x) * (b.x - a.x) + (m.y - a.y) * (b.y - a.y)
  }

  /** Two points are at squared distance zero exactly when they coincide. */
  lemma Dist2ZeroIffSame(p: Position, q: Position)
    ensures Dist2(p, q) == 0.0 <==> p == q
  {
    SqNonNegative(p.x - q.x);
    SqNonNegative(p.y - q.y);
    if p.x != q.x {
      SqPositive(p.x - q.x);
    } else if p.y != q.y {
      SqPositive(p.y - q.y);
    }
  }

  /** The parameter of the foot of the perpendicular from `m` to the line
      through `a` and `b`. */
  function ProjectionParam(a: Position, b: Position, m: Position): real
    requires a != b
  {
    Dist2ZeroIffSame(b, a);
    Dot(a, b, m) / Dist2(b, a)
  }

  /** The quadratic `c - 2 u k + u^2 l` in the parameter `u`. */
  function Quad(c: real, k: real, l: real, u: real): real
  {
    c - 2.0 * u * k + u * u * l
  }

  lemma ExpandAlong(m: real, a: real, b: real, u: real)
    ensures Sq(m - (a + u * (b - a))) == Quad(Sq(m - a), (m - a) * (b - a), Sq(b - a), u)
  {
  }

  lemma QuadAdd(c1: real, k1: real, l1: real, c2: real, k2: real, l2: real, u: real)
    ensures Quad(c1, k1, l1, u) + Quad(c2, k2, l2, u) == Quad(c1 + c2, k1 + k2, l1 + l2, u)
  {
  }

  lemma Dist2LerpByAxis(a: Position, b: Position, m: Position, u: real)
    ensures Dist2(m, Lerp(a, b, u)) ==
            Sq(m.x - (a.x + u * (b.x - a.x))) + Sq(m.y - (a.y + u * (b.y - a.y)))
  {
  }

  lemma Dist2LerpAsQuads(a: Position, b: Position, m: Position, u: real)
    ensures Dist2(m, Lerp(a, b, u)) ==
            Quad(Sq(m.x - a.x), (m.x - a.x) * (b.x - a.x), Sq(b.x - a.x), u)
              + Quad(Sq(m.y - a.y), (m.y - a.y) * (b.y - a.y), Sq(b.y - a.y), u)
  {
    Dist2LerpByAxis(a, b, m, u);
    ExpandAlong(m.x, a.x, b.x, u);
    ExpandAlong(m.y, a.y, b.y, u);
  }

  lemma QuadOfSums(a: Position, b: Position, m: Position, u: real)
    ensures Quad(Sq(m.x - a.x) + Sq(m.y - a.y), (m.x - a.x) * (b.x - a.x) + (m.y - a.y) * (b.y - a.y),
                 Sq(b.x - a.x) + Sq(b.y - a.y), u)
         == Quad(Dist2(m, a), Dot(a, b, m), Dist2(b, a), u)
  {
  }

  /** The squared distance from `m` to the point at parameter `u` is a
      quadratic in `u`. */
  lemma Dist2Lerp(a: Position, b: Position, m: Position, u: real)
    ensures Dist2(m, Lerp(a, b, u)) == Quad(Dist2(m, a), Dot(a, b, m), Dist2(b, a), u)
  {
    Dist2LerpAsQuads(a, b, m, u);
    QuadAdd(Sq(m.x - a.x), (m.x - a.x) * (b.x - a.x), Sq(b.x - a.x),
            Sq(m.y - a.y), (m.y - a.y) * (b.y - a.y), Sq(b.y - a.y), u);
    QuadOfSums(a, b, m, u);
  }

  /** With `l > 0` the quadratic is its value at `k / l` plus
      `l (u - k / l)^2`. */
  lemma CompleteTheSquare(c: real, k: real, l: real, u: real)
    requires l > 0.0
    ensures Quad(c, k, l, u) == Quad(c, k, l, k / l) + l * Sq(u - k / l)
  {
    var t0 := k / l;
    assert t0 * l == k;
    assert l * Sq(u - t0) == u * u * l - 2.0 * u * (t0 * l) + t0 * (t0 * l);
  }

  /** The foot of the perpendicular from `m` to the line through `a`, `b`. */
  function Foot(a: Position, b: Position, m: Position): Position
    requires a != b
  {
    Lerp(a, b, ProjectionParam(a, b, m))
  }

  /** How much farther from `m` the point at parameter `s` is than the foot. */
  function Excess(a: Position, b: Position, m: Position, s: real): real
    requires a != b
  {
    Dist2(b, a) * Sq(s - ProjectionParam(a, b, m))
  }

  /** Moving along the line away from the foot of the perpendicular adds
      exactly `|b - a|^2 (s - t0)^2` to the squared distance from `m`. */
  lemma DistanceAlongLine(a: Position, b: Position, m: Position, s: real)
    requires a != b
    ensures Dist2(m, Lerp(a, b, s)) == Dist2(m, Foot(a, b, m)) + Excess(a, b, m, s)
  {
    Dist2ZeroIffSame(b, a);
    Dist2Lerp(a, b, m, s);
    Dist2Lerp(a, b, m, ProjectionParam(a, b, m));
    CompleteTheSquare(Dist2(m, a), Dot(a, b, m), Dist2(b, a), s);
  }

  /** The foot of the perpendicular is the point of the infinite line nearest
      to `m`. */
  lemma FootIsNearestOnLine(a: Position, b: Position, m: Position, s: real)
    requires a != b
    ensures Dist2(m, Foot(a, b, m)) <= Dist2(m, Lerp(a, b, s))
  {
    DistanceAlongLine(a, b, m, s);
    ExcessNonNegative(a, b, m, s);
  }

  lemma ExcessNonNegative(a: Position, b: Position, m: Position, s: real)
    requires a != b
    ensures Excess(a, b, m, s) >= 0.0
  {
    SqNonNegative(s - ProjectionParam(a, b, m));
    ScaleOrdered(Dist2(b, a), 0.0, Sq(s - ProjectionParam(a, b, m)));
  }

  lemma SquaresOrdered(e: real, f: real)
    requires 0.0 <= e <= f || f <= e <= 0.0
    ensures Sq(e) <= Sq(f)
  {
  }

  lemma ScaleOrdered(l: real, u: real, v: real)
    requires l >= 0.0 && u <= v
    ensures l * u <= l * v
  {
  }

  /** A parameter no farther from the foot's, on the same side, has no larger
      excess. */
  lemma ExcessOrdered(a: Position, b: Position, m: Position, t: real, s: real)
    requires a != b
    requires var t0 := ProjectionParam(a, b, m); t0 <= t <= s || s <= t <= t0
    ensures Excess(a, b, m, t) <= Excess(a, b, m, s)
  {
    SquaresOrdered(t - ProjectionParam(a, b, m), s - ProjectionParam(a, b, m));
    ScaleOrdered(Dist2(b, a), Sq(t - ProjectionParam(a, b, m)), Sq(s - ProjectionParam(a, b, m)));
  }

  /** Clamping the foot's parameter to [0, 1] gives the point of the segment
      nearest to `m`. */
  lemma ClampedFootIsNearestOnSegment(a: Position, b: Position, m: Position, s: real)
    requires a != b
    requires 0.0 <= s <= 1.0
    ensures Dist2(m, Lerp(a, b, Clamp01(ProjectionParam(a, b, m)))) <= Dist2(m, Lerp(a, b, s))
  {
    DistanceAlongLine(a, b, m, s);
    DistanceAlongLine(a, b, m, Clamp01(ProjectionParam(a, b, m)));
    ExcessOrdered(a, b, m, Clamp01(ProjectionParam(a, b, m)), s);
  }

  /** Wraps every point as a candidate. */
  function Lift(points: seq<Position>): (cands: seq<Option<Position>>)
    ensures |cands| == |points|
    ensures forall i :: 0 <= i < |points| ==> cands[i] == Some(points[i])
  {
    seq(|points|, i requires 0 <= i < |points| => Some(points[i]))
  }

  /** A left-to-right scan that keeps the first candidate whose distance to
      `m` is strictly smaller than every earlier one's; absent candidates are
      skipped. */
  function NearestAmong(cands: seq<Option<Position>>, m: Position): Option<Position>
  {
    if |cands| == 0 then None
    else
      var best := NearestAmong(cands[..|cands| - 1], m);
      var c := cands[|cands| - 1];
      if c.Some? && (best.None? || Dist2(m, c.value) < Dist2(m, best.value)) then c else best
  }

  /** What the scan finds: nothing exactly when every candidate is absent;
      otherwise the candidate at the smallest distance, and among those the
      earliest. */
  lemma {:induction false} NearestAmongIsFirstNearest(cands: seq<Option<Position>>, m: Position)
    ensures NearestAmong(cands, m).None? <==> forall k :: 0 <= k < |cands| ==> cands[k].None?
    ensures NearestAmong(cands, m).Some? ==>
      exists k :: 0 <= k < |cands| && cands[k] == NearestAmong(cands, m)
        && (forall j :: 0 <= j < |cands| && cands[j].Some? ==>
              Dist2(m, NearestAmong(cands, m).value) <= Dist2(m, cands[j].value))
        && (forall j :: 0 <= j < k && cands[j].Some? ==>
              Dist2(m, NearestAmong(cands, m).value) < Dist2(m, cands[j].value))
  {
    if |cands| > 0 {
      var n := |cands| - 1;
      var init := cands[..n];
      NearestAmongIsFirstNearest(init, m);
      var best := NearestAmong(init, m);
      var c := cands[n];
      assert forall k :: 0 <= k < n ==> init[k] == cands[k];
      if c.Some? && (best.None? || Dist2(m, c.value) < Dist2(m, best.value)) {
        if best.Some? {
          var k0 :| 0 <= k0 < n && init[k0] == best
            && (forall j :: 0 <= j < n && init[j].Some? ==> Dist2(m, best.value) <= Dist2(m, init[j].value));
        }
        assert cands[n] == NearestAmong(cands, m);
      } else if best.Some? {
        var k0 :| 0 <= k0 < n && init[k0] == best
          && (forall j :: 0 <= j < n && init[j].Some? ==> Dist2(m, best.value) <= Dist2(m, init[j].value))
          && (forall j :: 0 <= j < k0 && init[j].Some? ==> Dist2(m, best.value) < Dist2(m, init[j].value));
        assert cands[k0] == NearestAmong(cands, m);
      }
    }
  }

  /** Over a non-empty list of points the scan always finds one of them. */
  lemma NearestAmongPoints(points: seq<Position>, m: Position)
    requires |points| > 0
    ensures NearestAmong(Lift(points), m).Some?
    ensures NearestAmong(Lift(points), m).value in points
  {
    NearestAmongIsFirstNearest(Lift(points), m);
    assert Lift(points)[0].Some?;
    var k :| 0 <= k < |points| && Lift(points)[k] == NearestAmong(Lift(points), m);
    assert points[k] == NearestAmong(Lift(points), m).value;
  }
}
