/** Grabbing shapes to move them: a grab happens only when the cursor snaps
    to some shape, and then every shape is offered, nearest first. */
module Move {
  import opened Shapes
  import opened Geometry
  import opened Snap

  /** The midpoint of a shape's start and end points. */
  function Midpoint(s: Shape): Position
  {
    Position((s.startX + s.endX) / 2.0, (s.startY + s.endY) / 2.0)
  }

  /** The sort key: the squared distance from the shape's midpoint to the
      position.  The square root is monotone, so ordering by the square
      orders by the distance. */
  function Key(s: Shape, pos: Position): real
  {
    Dist2(Midpoint(s), pos)
  }

  /** Nearest first: the keys never decrease along the sequence. */
  ghost predicate SortedByDistance(shapes: seq<Shape>, pos: Position)
  {
    forall i, j :: 0 <= i < j < |shapes| ==> Key(shapes[i], pos) <= Key(shapes[j], pos)
  }

  /** Sorts the array in place by distance from `pos`: an insertion sort that
      moves each new element down by adjacent swaps. */
  method SortByDistance(a: array<Shape>, pos: Position)
    modifies a
    ensures SortedByDistance(a[..], pos)
    ensures multiset(a[..]) == multiset(old(a[..]))
  {
    for i := 0 to a.Length
      invariant SortedByDistance(a[..i], pos)
      invariant multiset(a[..]) == multiset(old(a[..]))
    {
      InsertDown(a, i, pos);
    }
    assert a[..a.Length] == a[..];
  }

  /** Exchanges the elements at `j - 1` and `j`. */
  function SwapDown(s: seq<Shape>, j: int): (r: seq<Shape>)
    requires 0 < j < |s|
    ensures |r| == |s| && multiset(r) == multiset(s)
  {
    s[j - 1 := s[j]][j := s[j - 1]]
  }

  /** The state of the insertion of `s[j]` into the prefix up to `i`: the
      prefix without position `j` is sorted, the element at `j` is nearer than
      everything after it, and its two neighbours are in order. */
  ghost predicate Inserting(s: seq<Shape>, i: int, j: int, pos: Position)
  {
    0 <= j <= i < |s| &&
    (forall p, q :: 0 <= p < q <= i && p != j && q != j ==> Key(s[p], pos) <= Key(s[q], pos)) &&
    (forall q :: j < q <= i ==> Key(s[j], pos) < Key(s[q], pos)) &&
    (0 < j < i ==> Key(s[j - 1], pos) <= Key(s[j + 1], pos))
  }

  lemma InsertingStart(s: seq<Shape>, i: int, pos: Position)
    requires 0 <= i < |s| && SortedByDistance(s[..i], pos)
    ensures Inserting(s, i, i, pos)
  {
    assert forall p :: 0 <= p < i ==> s[..i][p] == s[p];
  }

  lemma InsertingStep(s: seq<Shape>, i: int, j: int, pos: Position)
    requires Inserting(s, i, j, pos) && 0 < j && Key(s[j - 1], pos) > Key(s[j], pos)
    ensures Inserting(SwapDown(s, j), i, j - 1, pos)
  {
  }

  lemma InsertingDone(s: seq<Shape>, i: int, j: int, pos: Position)
    requires Inserting(s, i, j, pos) && (j == 0 || Key(s[j - 1], pos) <= Key(s[j], pos))
    ensures SortedByDistance(s[..i + 1], pos)
  {
    forall p, q | 0 <= p < q <= i
      ensures Key(s[p], pos) <= Key(s[q], pos)
    {
      if q == j && p < j - 1 {
        assert Key(s[p], pos) <= Key(s[j - 1], pos);
      }
    }
  }

  /** Moves `a[i]` down into the sorted prefix `a[..i]`. */
  method InsertDown(a: array<Shape>, i: int, pos: Position)
    requires 0 <= i < a.Length && SortedByDistance(a[..i], pos)
    modifies a
    ensures SortedByDistance(a[..i + 1], pos)
    ensures multiset(a[..]) == multiset(old(a[..]))
  {
    InsertingStart(a[..], i, pos);
    var j := i;
    while j > 0 && Key(a[j - 1], pos) > Key(a[j], pos)
      invariant Inserting(a[..], i, j, pos)
      invariant multiset(a[..]) == multiset(old(a[..]))
    {
      InsertingStep(a[..], i, j, pos);
      a[j - 1], a[j] := a[j], a[j - 1];
      j := j - 1;
    }
    InsertingDone(a[..], i, j, pos);
  }

  /** Sorts a copy of `shapes` by distance from `pos`; the input sequence is
      a value and stays as it was. */
  method ShapesSortedByDistance(shapes: seq<Shape>, pos: Position) returns (sorted: seq<Shape>)
    ensures multiset(sorted) == multiset(shapes)
    ensures SortedByDistance(sorted, pos)
  {
    var a := new Shape[|shapes|](i requires 0 <= i < |shapes| => shapes[i]);
    assert a[..] == shapes;
    SortByDistance(a, pos);
    sorted := a[..];
  }

  /** The first shape of a sorted permutation is one nearest to `pos`. */
  lemma SortedStartsWithNearest(sorted: seq<Shape>, shapes: seq<Shape>, pos: Position, s: Shape)
    requires multiset(sorted) == multiset(shapes) && SortedByDistance(sorted, pos)
    requires s in shapes
    ensures |sorted| > 0 && Key(sorted[0], pos) <= Key(s, pos)
  {
    assert s in multiset(shapes);
    assert s in sorted;
    var k :| 0 <= k < |sorted| && sorted[k] == s;
    if k > 0 {
      assert Key(sorted[0], pos) <= Key(sorted[k], pos);
    }
  }

  /** The shapes a grab picks up: none unless the cursor snaps to some shape,
      otherwise all of them, nearest first. */
  method MovingShapes(shapes: seq<Shape>, cursor: Position, sqrt: real -> real) returns (r: Option<seq<Shape>>)
    requires forall i :: 0 <= i < |shapes| ==> RootsAvailable(shapes[i], cursor, sqrt)
    ensures r.None? <==> FirstShapeSnap(shapes, cursor, sqrt).None?
    ensures |shapes| == 0 ==> r.None?
    ensures r.Some? ==> |r.value| == |shapes| > 0
    ensures r.Some? ==> multiset(r.value) == multiset(shapes) && SortedByDistance(r.value, cursor)
  {
    var point := NearestShapeSnapPoint(cursor, shapes, sqrt);
    if point.None? {
      return None;
    }
    var sorted := ShapesSortedByDistance(shapes, cursor);
    assert |sorted| == |multiset(sorted)| == |shapes|;
    if |sorted| == 0 {
      return None;
    }
    return Some(sorted);
  }
}
