# Drawing panel core, modelled in Dafny

This project models the editing core of a small browser drawing program.
The user draws lines, rectangles and circles on a canvas. A snap highlight
pulls the cursor to feature points of existing shapes: endpoints, quarter
points, rectangle corners and side midpoints, and the centre and compass
points of a circle. Failing that, it pulls the cursor onto a side, a
circumference or a crossing of the background grid. The pieces modelled:

- `Shapes`: shapes, positions, event types and history events. A shape is
  an id, a start and an end point, a kind and a selection flag.
- `Geometry`: exact-real helpers. These are squared distance, "within a
  threshold" (hypot ≤ T, written as a squared comparison), interpolation,
  segment membership, projection and "nearest of a list".
- `Snap`:
  - the snap-point builders and the nearest-point searches for lines,
    rectangles and circles;
  - the first-shape-that-snaps loop;
  - grid rounding and the nearest grid point.
- `Intersection`: the rubber-band selection hit tests for lines, rectangles
  and circles, and the geometry that gives them meaning. This covers
  segment/segment crossing, a corner's distance to a line, and the line
  against circle quadratic.
- `Move`: sorting shapes by distance from the cursor (an in-place insertion
  sort on an array copy) and the list of shapes a move would pick up.
- `Coordinates`, `Mapping`, `Conditions`: same-position test, distance,
  axes centre, event-to-shape mapping, create-mode test.
- `Highlight`: the snap-highlight computation the panel performs on every
  mouse move. It has three steps:
  - find the first shape that passes its snap test;
  - place the highlight on it;
  - otherwise fall back to the grid.

  The rectangle step uses the corrected side clamp of the "## Findings"
  row. It agrees with the panel's own clamp on every rectangle drawn from
  its top-left corner, and differs on the others.
- `DrawPanel`: the panel's state and its handlers:
  - the state is the committed shapes, the shape being drawn, the snap
    highlight and the undo history;
  - the handlers are mouse down/move/up, undo, delete and escape;
  - the `Valid()` invariant keeps one creation event per committed shape.

Coordinates are exact reals. The host's square root is a parameter
`sqrt: real -> real`. Each member that takes a root requires, through
`RootAt`, that `sqrt` is a root at exactly the values it is applied to.
The grid size, the screen size, the tool mode and the id a handler would
generate are parameters. The snap threshold is the constant 5.

## Model

| member | source | states |
|---|---|---|
| Conditions.CreateModes | src/util/conditions.ts:3-6 | Line, rectangle and circle creation are create modes; select is not. |
| Mapping.MapEventToShape | src/util/map.ts:7-18 | Succeeds exactly on the create modes, never yields a point, and otherwise fails with "Invalid event type". |
| Mapping.MappedKinds | src/util/map.ts:9-16 | Each creation mode maps to its own shape kind; select is an error. |
| Mapping.MappingIsInjective | src/util/map.ts:7-18 | Two create modes that map to the same kind are the same mode. |
| Coordinates.SamePositionIffZeroLength | src/util/coordinates.ts:4-5 | A shape's start equals its end iff the distance between them is zero. |
| Coordinates.GetDistance | src/util/coordinates.ts:26-28 | The distance is non-negative and its square is the squared Euclidean distance. |
| Coordinates.GetDistanceSymmetric | src/util/coordinates.ts:26-28 | Distance does not depend on the order of the two points. |
| Coordinates.GetDistanceZeroIffSame | src/util/coordinates.ts:26-28 | Distance is zero iff the two points coincide. |
| Coordinates.AxesCenter | src/util/coordinates.ts:7-24 | Each coordinate is at least the 500 margin, and it is half the screen dimension once that dimension is at least 1000. |
| Snap.SnapToGrid | src/util/snap.ts:12-13 | The snapped value lies on the grid and within half a cell of the input. |
| Snap.SnapToGridIdempotent | src/util/snap.ts:12-13 | Snapping an already snapped value changes nothing. |
| Snap.SnapToGridIsNearest | src/util/snap.ts:12-13 | No grid multiple is closer to the input than the snapped value. |
| Snap.LineSnapPoints | src/util/snap.ts:47-67 | Exactly five points, the interpolations at t = 0, 1, 0.5, 0.25 and 0.75 in that order. |
| Snap.LineSnapPointsOnLine | src/util/snap.ts:47-67 | Every line snap point lies on the segment. |
| Snap.RectangleSides | src/util/snap.ts:268-278 | Four sides joined end to end from start round to start; top and bottom are horizontal, right and left vertical. |
| Snap.RectangleSnapPoints | src/util/snap.ts:120-149 | Sixteen points, one for each entry of the side and parameter tables that place them. |
| Snap.RectangleSnapPointsCorners | src/util/snap.ts:120-149 | The first four points are the corners, in order from the start, through the end and back round; the midpoints and quarter points follow. |
| Snap.RectangleSnapPointOnSide | src/util/snap.ts:120-149 | Each of the 16 rectangle snap points is an interpolation along one side, so it shares an x or a y with a corner. |
| Snap.RectangleSnapPointsOnSides | src/util/snap.ts:120-149 | Every rectangle snap point lies on one of the four sides. |
| Snap.CalculateCircleProperties | src/util/snap.ts:165-174 | The centre is the start; the radius is non-negative and its square is the squared start-to-end distance. |
| Snap.CircleSnapPoints | src/util/snap.ts:176-186 | Five points: four on the circumference, then the centre. |
| Snap.NearestPoint | src/util/snap.ts:227-239 | Null iff no point is within the threshold; otherwise the first point in list order that is. |
| Snap.NearestLinePathPoint | src/util/snap.ts:241-266 | A result lies on a segment of non-zero length and within the threshold. |
| Snap.NearestLinePathPointIsNearest | src/util/snap.ts:241-266 | A result is the point of the segment nearest the cursor; null iff the segment is degenerate or no point of it is within the threshold. |
| Snap.NearestLinePoint | src/util/snap.ts:69-81 | An in-range feature point wins; any result is within the threshold and on the segment. |
| Snap.NearestLinePointNone | src/util/snap.ts:69-81 | Null iff no point of the segment is within the threshold. |
| Snap.SideProjections | src/util/snap.ts:280-309 | Each side's candidate is the point of that side nearest the cursor, in range; it is null iff the side has no length or no point of it is in range. |
| Snap.NearestRectangleSidesPoint | src/util/snap.ts:280-309 | The loop returns the in-range side candidate of strictly smallest distance, earliest on ties. |
| Snap.RectangleSidesPointIsNearest | src/util/snap.ts:280-309 | Null iff no side is in range; otherwise the result is in range and no side candidate is nearer. |
| Snap.NearestRectanglePoint | src/util/snap.ts:151-163 | Computes the rectangle's snap: an in-range feature point, else the nearest side point. |
| Snap.RectanglePointFacts | src/util/snap.ts:151-163 | An in-range feature point wins over the sides; any result is within the threshold. |
| Snap.NearestCircleBoundaryPoint | src/util/snap.ts:188-209 | Null iff the cursor's distance from the circumference exceeds the threshold; otherwise a point exactly on the circle and within the threshold. |
| Snap.NearestCirclePoint | src/util/snap.ts:211-225 | An in-range feature point wins; with none in range the cursor is off the centre and the result is the boundary point; any result is the centre or on the circle, and within the threshold. |
| Snap.NearestCirclePointNone | src/util/snap.ts:211-225 | Null iff no tangent point or centre is within 5 and the cursor's distance from the circumference exceeds the threshold. |
| Snap.ShapeSnap | src/util/snap.ts:25-37 | A point never snaps; any snap is within the threshold of the cursor. |
| Snap.FirstShapeSnap | src/util/snap.ts:18-45 | Null iff no shape yields a point; otherwise the point of the first shape, in list order, that yields one. |
| Snap.NearestShapeSnapPoint | src/util/snap.ts:18-45 | The early-return loop computes the first shape's snap point. |
| Snap.NearestGridPoint | src/util/snap.ts:311-325 | A result lies on the grid in both axes and within the threshold. |
| Snap.GridPointIsNearest | src/util/snap.ts:311-325 | The rounded grid point is the nearest grid crossing. |
| Snap.NearestGridPointNone | src/util/snap.ts:311-325 | Null iff no grid crossing is within the threshold. |
| Intersection.LinesMeetAt | src/util/intersection.ts:287-293 | With a non-zero determinant, the computed point lies on both infinite lines. |
| Intersection.LinesMeetOnce | src/util/intersection.ts:287-293 | Two non-parallel lines share only that one point. |
| Intersection.LineIntersectsRectEdge | src/util/intersection.ts:277-314 | False when the lines are parallel; true only if the intersection lies within both segments' coordinate ranges. |
| Intersection.RectEdgeTestMeansSegmentsMeet | src/util/intersection.ts:277-314 | True iff the lines are not parallel and the two segments share a point. |
| Intersection.IsLineCloseToSelection | src/util/intersection.ts:316-353 | A zero-length segment is never close. |
| Intersection.LineCloseMeansCornerNearLine | src/util/intersection.ts:316-353 | Close iff the segment has length and some corner of the box is within the threshold of the infinite line through it. |
| Intersection.LineIntersectsSelection | src/util/intersection.ts:181-275 | Both endpoints inside the box means selected; no bounding-box overlap (and not both inside) means not selected. |
| Intersection.LineSelectionMeaning | src/util/intersection.ts:181-275 | Selected iff both endpoints are inside, or the boxes overlap and the segment crosses a side or comes within 5 of the line at a corner. |
| Intersection.QuadraticRoots | src/util/intersection.ts:98-111 | With a non-zero leading coefficient, the two root formulas are exactly the zeros of the quadratic. |
| Intersection.DoesLineIntersectCircle | src/util/intersection.ts:79-112 | False on a negative discriminant and on a zero-length segment. |
| Intersection.LineCircleMeaning | src/util/intersection.ts:79-112 | True iff some point of the segment lies on the circle. |
| Intersection.RectangleIntersectsSelection | src/util/intersection.ts:22-77 | Full coverage of the normalised rectangle means selected. |
| Intersection.RectangleCornersInterchangeable | src/util/intersection.ts:26-41 | Swapping start and end coordinates does not change the result. |
| Intersection.CircleIntersectsSelection | src/util/intersection.ts:114-179 | Full coverage of the centre ± radius box means selected. |
| Intersection.CircleSelectionMeaning | src/util/intersection.ts:114-179 | Without full coverage, selected iff some side of the box meets the circumference. |
| Intersection.BoxInsideCircleNotSelected | src/util/intersection.ts:114-179 | A box strictly inside the circle is not selected. |
| Intersection.IsShapeIntersecting | src/util/intersection.ts:6-20 | Dispatches lines, rectangles and circles to their tests; a point is the "Invalid shape type" error. |
| Move.SortByDistance | src/util/move.ts:11-26 | Sorts the array in place into non-decreasing distance of each shape's midpoint from the position, as a permutation. |
| Move.InsertDown | src/util/move.ts:11-26 | One insertion step extends the sorted prefix by one element and permutes the array. |
| Move.ShapesSortedByDistance | src/util/move.ts:6-29 | Returns a permutation of the input ordered by distance; the input sequence is a value and is left as it was. |
| Move.SortedStartsWithNearest | src/util/move.ts:6-29 | The first sorted shape is no farther than any input shape. |
| Move.MovingShapes | src/util/move.ts:31-50 | Null iff no shape snaps, so always null on no shapes; otherwise all shapes, non-empty, sorted by distance. |
| Highlight.Closest | src/DrawPanel/DrawPanel.tsx:231-237 | The point of minimum distance, first among equals. |
| Highlight.ClosestPoint | src/DrawPanel/DrawPanel.tsx:231-237 | The loop finds that nearest point and its squared distance. |
| Highlight.ClosestInRange | src/DrawPanel/DrawPanel.tsx:239-240 | The nearest point is in range iff some point is. |
| Highlight.FindSnapped | src/DrawPanel/DrawPanel.tsx:51-196 | Null iff no shape passes its snap test; otherwise the first shape that passes. |
| Highlight.LineSnapTestAgrees | src/DrawPanel/DrawPanel.tsx:52-95 | The panel's line test passes iff the line's snap search finds a point. |
| Highlight.RectangleSnapTestAgrees | src/DrawPanel/DrawPanel.tsx:96-172 | The panel's rectangle test, which checks only the first 12 feature points, passes iff the rectangle's snap search finds a point. |
| Highlight.LineHighlightPoint | src/DrawPanel/DrawPanel.tsx:198-273 | On the segment and within 5; the nearest feature point, earliest among equally near ones, when that is in range, otherwise the point of the segment nearest the cursor. |
| Highlight.ClampBetween | src/DrawPanel/DrawPanel.tsx:319-357 | The clamp lies between the two bounds, whichever is larger, and is the identity on that range. |
| Highlight.ClampIsNearest | src/DrawPanel/DrawPanel.tsx:319-357 | No value between the bounds is closer than the clamp. |
| Highlight.ClampAsWritten | src/DrawPanel/DrawPanel.tsx:319-357 | The panel's clamp stays between the bounds; it equals the corrected clamp when start ≤ end and is always `start` when start > end. |
| Highlight.RectangleHighlightsAgree | src/DrawPanel/DrawPanel.tsx:274-364 | For a rectangle drawn from its top-left corner the panel's highlight and the corrected one are the same point. |
| Highlight.RectangleHighlightAsWrittenOnOutline | src/DrawPanel/DrawPanel.tsx:274-364 | The panel's highlight always lies on the rectangle's outline. |
| Highlight.RectangleHighlightNear | src/DrawPanel/DrawPanel.tsx:274-364 | For a rectangle that passes its test, the highlight lies on the outline and within 5·√2 of the cursor. |
| Highlight.RectangleHighlightAsWrittenStrays | src/DrawPanel/DrawPanel.tsx:319-357 | On the rectangle (100,0)→(0,100) at cursor (60,2), the test passes but the as-written clamp puts the highlight more than 5·√2 away; the corrected one gives (60,0). |
| Highlight.CircleHighlight | src/DrawPanel/DrawPanel.tsx:365-420 | For a circle that passes its test, the shape moved to a point within 5 that is the centre or on the circumference. |
| Highlight.SnappedHighlight | src/DrawPanel/DrawPanel.tsx:198-420 | The snapped shape moved to the highlight point: on the segment for a line, on the outline within 5·√2 for a rectangle (corrected clamp), the centre or the circle for a circle. |
| Highlight.SnappedHighlightIgnoresPrevious | src/DrawPanel/DrawPanel.tsx:398-418 | The previous highlight never affects the result: its circle branch cannot be reached. |
| Highlight.GridHighlight | src/DrawPanel/DrawPanel.tsx:421-441 | Null iff no grid crossing is within 5; otherwise a fresh point shape on a grid crossing, in range. |
| Highlight.NextHighlight | src/DrawPanel/DrawPanel.tsx:51-441 | The first snapping shape decides the highlight, placed on it as the snapped-highlight rule places it; with none, the grid does. |
| Highlight.ComputeSnappedHighlight | src/DrawPanel/DrawPanel.tsx:198-420 | The loops and branches compute the snapped highlight (with the corrected rectangle clamp). |
| DrawPanel.Committed | src/DrawPanel/DrawPanel.tsx:459-460 | Only the end moves, to the highlight when its coordinates are non-zero; with no highlight nothing changes. |
| DrawPanel.ZeroHighlightIgnored | src/DrawPanel/DrawPanel.tsx:459-460 | A highlight coordinate of zero counts as absent and the fallback is used. |
| DrawPanel.CommitMayBeDegenerate | src/DrawPanel/DrawPanel.tsx:454-461 | A shape with extent can be committed with none once its end snaps onto its start. |
| DrawPanel.ClearSelection | src/DrawPanel/DrawPanel.tsx:488-494 | Same length, every flag cleared, every other field and the order kept. |
| DrawPanel.ClearSelectionIdempotent | src/DrawPanel/DrawPanel.tsx:488-494 | Clearing twice is clearing once. |
| DrawPanel.Panel.constructor | src/DrawPanel/DrawPanel.tsx:24-28 | Starts empty and valid. |
| DrawPanel.Panel.MouseDown | src/DrawPanel/DrawPanel.tsx:30-43 | In a create mode, starts a shape of the mapped kind with end equal to start (at the highlight or the cursor); otherwise changes nothing. |
| DrawPanel.Panel.MouseMove | src/DrawPanel/DrawPanel.tsx:45-450 | The highlight becomes the next highlight; in a create mode only the drawn shape's end moves; the invariant holds. |
| DrawPanel.Panel.MouseUp | src/DrawPanel/DrawPanel.tsx:452-470 | In a create mode with a shape in progress, appends the committed shape and exactly one event iff the drawn shape has extent, and ends the drawing; otherwise changes nothing; the invariant holds. |
| DrawPanel.Panel.Undo | src/DrawPanel/DrawPanel.tsx:472-481 | No-op on empty history; otherwise pops one event and drops the last shape; the invariant holds. |
| DrawPanel.Panel.Delete | src/DrawPanel/DrawPanel.tsx:483-486 | Changes nothing. |
| DrawPanel.Panel.Escape | src/DrawPanel/DrawPanel.tsx:488-494 | Clears every selection flag and changes nothing else. |
| DrawPanel.CommitThenUndo | src/DrawPanel/DrawPanel.tsx:452-481 | Undo right after a committing mouse up restores the shapes, the history and the highlight, and ends the drawing. |

## Left out

- `getNearestLineSnapAnglePoint` (src/util/snap.ts:83-118) uses atan2, cos and sin, which have no exact counterpart over the reals. The model does not use it.
- `mapShapeComponentToShape` (src/util/map.ts:20-31) returns React components. Rendering, JSX and the SVG components are not part of this model.
- The `useEffect` listener registration, the keyboard modifier checks in `handleUndo`, and React's batching of state updates are not modelled. Each handler updates the state in one step, as if the update were immediate.
- `generateId` is not part of this model. Ids are the `freshId` parameter.
- The grid size is read from CSS; here it is a positive parameter.
- The window size is read from the browser; here it is a parameter of `AxesCenter`.
- `Math.sqrt` and `Math.hypot` become the `sqrt` parameter, constrained by `RootAt` where used.
- Floating-point rounding is not modelled: coordinates are exact reals. NaN propagation is modelled only where it decides a result: a zero-length segment gives null or false.
- The event-type enum file is not part of this model. Event types are the four modes the code names.
- Snap.NearestCircleBoundaryPoint: the source divides by zero when the cursor is on the centre. The model requires a cursor off the centre unless the radius exceeds the threshold, since its only caller checks the centre first.
- Move.MovingShapes: the source calls the shape search with its arguments in swapped order and passes an extra radius the callee ignores. The model makes the intended call with the default threshold.
- Intersection.IsLineCloseToSelection: the division by the segment's length is folded into a comparison of squares, which denotes the same real number.
- DrawPanel.Panel.Delete: the handler is empty, and the model states only that nothing changes.
- Highlight.ComputeSnappedHighlight: the rectangle band rule uses the corrected clamp of "## Findings", not the panel's `Math.max(start, Math.min(mouse, end))`. The two agree on rectangles drawn from the top-left corner (Highlight.RectangleHighlightsAgree) and differ on the others, e.g. (100,0)→(0,100) at cursor (60,2) gives (60,0) here and (100,0) in the source.
- Highlight.SnappedHighlight: its rectangle case uses the corrected clamp, for the same reason; the panel's own point is Highlight.RectangleHighlightPointAsWritten.
- Highlight.NextHighlight: inherits the corrected rectangle clamp from Highlight.SnappedHighlight.
- DrawPanel.Panel.MouseMove: the new highlight is Highlight.NextHighlight, so a rectangle drawn from any corner other than the top-left gets the corrected highlight, not the one the source computes.

Behaviour of the code worth noting, which the model follows:

- A circle is selected when a box edge crosses its circumference, not when the box comes near it.
- Every shape, selected or not, is a move candidate.
- A commit can produce a shape of no extent once its end snaps onto its start.

## Findings

| source | as written | input that shows it | evidently intended | confidence | as-written member | corrected member |
|---|---|---|---|---|---|---|
| src/DrawPanel/DrawPanel.tsx:319-357 | The side clamp `Math.max(start, Math.min(mouse, end))` collapses to `start` when the rectangle was drawn with start greater than end. | Rectangle (100,0)→(0,100), cursor (60,2): the top side passes the snap test, but the highlight lands on (100,0), at distance √1604 ≈ 40 from the cursor. | Clamp between the smaller and the larger bound, giving (60,0), on the outline within 5·√2 of the cursor. | not executed | Highlight.RectangleHighlightAsWrittenStrays | Highlight.RectangleHighlightNear |
