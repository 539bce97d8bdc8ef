/** Small coordinate helpers: the degeneracy test of a shape, the Euclidean
    distance, and where the axes are drawn for a given screen size. */
module Coordinates {
  import opened Shapes
  import opened Geometry

  /** A shape whose two defining points coincide has no extent. */
  predicate IsAtTheSamePosition(s: Shape)
  {
    s.startX == s.endX && s.startY == s.endY
  }

  /** A shape has no extent exactly when its defining points are at
      distance zero. */
  lemma SamePositionIffZeroLength(s: Shape)
    ensures IsAtTheSamePosition(s) <==> Dist2(s.End(), s.Start()) == 0.0
  {
    Dist2ZeroIffSame(s.End(), s.Start());
  }

  /** The Euclidean distance between two points; `sqrt` is the host's square
      root, exact at the squared distance. */
  function GetDistance(x1: real, y1: real, x2: real, y2: real, sqrt: real -> real): (d: real)
    requires RootAt(sqrt, Dist2(Position(x2, y2), Position(x1, y1)))
    ensures d >= 0.0
    ensures d * d == Dist2(Position(x1, y1), Position(x2, y2))
  {
    Dist2Symmetric(Position(x2, y2), Position(x1, y1));
    sqrt(Dist2(Position(x2, y2), Position(x1, y1)))
  }

  /** The distance does not depend on the order of the two points. */
  lemma GetDistanceSymmetric(x1: real, y1: real, x2: real, y2: real, sqrt: real -> real)
    requires RootAt(sqrt, Dist2(Position(x2, y2), Position(x1, y1)))
    ensures RootAt(sqrt, Dist2(Position(x1, y1), Position(x2, y2)))
    ensures GetDistance(x1, y1, x2, y2, sqrt) == GetDistance(x2, y2, x1, y1, sqrt)
  {
    Dist2Symmetric(Position(x2, y2), Position(x1, y1));
  }

  /** The distance is zero exactly when the two points coincide. */
  lemma GetDistanceZeroIffSame(x1: real, y1: real, x2: real, y2: real, sqrt: real -> real)
    requires RootAt(sqrt, Dist2(Position(x2, y2), Position(x1, y1)))
    ensures GetDistance(x1, y1, x2, y2, sqrt) == 0.0 <==> x1 == x2 && y1 == y2
  {
    var d := GetDistance(x1, y1, x2, y2, sqrt);
    Dist2ZeroIffSame(Position(x2, y2), Position(x1, y1));
    if d != 0.0 {
      SqPositive(d);
    }
  }

  /** Keeps the axes this far from the edges of the screen. */
  const AxesMargin: real := 500.0

  /** Where the axes cross: the middle of the screen, clamped so that it is
      at least the margin from the left and top edges. */
  function AxesCenter(screenWidth: real, screenHeight: real): (c: Position)
    ensures c.x >= AxesMargin && c.y >= AxesMargin
    ensures c.x == if screenWidth >= 2.0 * AxesMargin then screenWidth / 2.0 else AxesMargin
    ensures c.y == if screenHeight >= 2.0 * AxesMargin then screenHeight / 2.0 else AxesMargin
  {
    Position(Max(AxesMargin, Min(screenWidth / 2.0, screenWidth - AxesMargin)),
             Max(AxesMargin, Min(screenHeight / 2.0, screenHeight - AxesMargin)))
  }
}
