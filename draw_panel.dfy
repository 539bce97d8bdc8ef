/** The drawing panel's editing state: the committed shapes, the shape being
    drawn, the snap highlight and the history of creation events, and the
    mouse and keyboard handlers that update them.  The tool mode, the fresh
    id a handler would generate, the grid size and the host's square root
    are parameters of the handlers. */
module DrawPanel {
  import opened Shapes
  import opened Geometry
  import opened Snap
  import opened Conditions
  import opened Mapping
  import opened Coordinates
  import opened Highlight

  /** The highlight's x coordinate, or `fallback` when there is no highlight
      or its coordinate is zero: the panel writes `highlight?.startX ||
      fallback`, and zero is falsy. */
  function HighlightX(h: Option<Shape>, fallback: real): real
  {
    if h.Some? && h.value.startX != 0.0 then h.value.startX else fallback
  }

  function HighlightY(h: Option<Shape>, fallback: real): real
  {
    if h.Some? && h.value.startY != 0.0 then h.value.startY else fallback
  }

  /** A highlight on the axis line x = 0 or y = 0 is ignored in that
      coordinate, and the cursor's coordinate is used instead. */
  lemma ZeroHighlightIgnored(h: Shape, mouse: Position)
    requires h.startX == 0.0 && mouse.x != 0.0
    ensures HighlightX(Some(h), mouse.x) == mouse.x != h.startX
  {
  }

  /** The shape committed on mouse up: the drawn shape with its end moved to
      the highlight. */
  function Committed(cs: Shape, h: Option<Shape>): (c: Shape)
    ensures c.id == cs.id && c.Start() == cs.Start() && c.kind == cs.kind && c.isSelected == cs.isSelected
    ensures h.Some? && h.value.startX != 0.0 && h.value.startY != 0.0 ==> c.End() == h.value.Start()
    ensures h.None? ==> c == cs
  {
    cs.(endX := HighlightX(h, cs.endX), endY := HighlightY(h, cs.endY))
  }

  /** The degeneracy test looks at the shape before the end moves to the
      highlight, so a highlight on the start point commits a shape of no
      extent. */
  lemma CommitMayBeDegenerate(cs: Shape, h: Shape)
    requires cs.startX == 10.0 && cs.startY == 10.0 && cs.endX == 12.0 && cs.endY == 10.0
    requires h.startX == 10.0 && h.startY == 10.0
    ensures !IsAtTheSamePosition(cs) && IsAtTheSamePosition(Committed(cs, Some(h)))
  {
  }

  /** A committed shape and the history event of its creation share id,
      start and kind; the end and the selection flag may differ. */
  predicate SameDrawing(s: Shape, d: Shape)
  {
    s.id == d.id && s.Start() == d.Start() && s.kind == d.kind
  }

  /** Every shape's selection flag cleared; nothing else changes. */
  function ClearSelection(shapes: seq<Shape>): (r: seq<Shape>)
    ensures |r| == |shapes|
    ensures forall i :: 0 <= i < |r| ==>
      !r[i].isSelected && r[i].(isSelected := shapes[i].isSelected) == shapes[i]
  {
    seq(|shapes|, i requires 0 <= i < |shapes| => shapes[i].(isSelected := false))
  }

  /** Clearing twice is clearing once. */
  lemma ClearSelectionIdempotent(shapes: seq<Shape>)
    ensures ClearSelection(ClearSelection(shapes)) == ClearSelection(shapes)
  {
    assert forall i :: 0 <= i < |shapes| ==>
      ClearSelection(ClearSelection(shapes))[i] == ClearSelection(shapes)[i];
  }

  class Panel {
    var shapes: seq<Shape>
    var currentShape: Option<Shape>
    var snapHighlight: Option<Shape>
    var history: seq<Event>

    /** One history event per committed shape, in the same order: each
        records a creation mode and the shape as drawn, which had extent.
        No committed or drawn shape is a point. */
    ghost predicate Valid()
      reads this
    {
      |shapes| == |history|
      && (forall i :: 0 <= i < |history| ==>
            IsCreateShapeMode(history[i].eventType) && !IsAtTheSamePosition(history[i].data)
            && SameDrawing(shapes[i], history[i].data) && shapes[i].kind != Point)
      && (currentShape.Some? ==> currentShape.value.kind != Point)
    }

    constructor()
      ensures Valid()
      ensures shapes == [] && currentShape == None && snapHighlight == None && history == []
    {
      shapes := [];
      currentShape := None;
      snapHighlight := None;
      history := [];
    }

    /** In a creation mode, starts a shape of the mode's kind with no extent
        at the highlight, or at the cursor; otherwise does nothing. */
    method MouseDown(mode: EventType, mouse: Position, freshId: string)
      requires Valid()
      modifies this
      ensures Valid()
      ensures shapes == old(shapes) && history == old(history) && snapHighlight == old(snapHighlight)
      ensures IsCreateShapeMode(mode) ==>
        var x, y := HighlightX(old(snapHighlight), mouse.x), HighlightY(old(snapHighlight), mouse.y);
        currentShape == Some(Shape(freshId, x, y, x, y, MapEventToShape(mode).value, false))
      ensures IsCreateShapeMode(mode) ==> IsAtTheSamePosition(currentShape.value)
      ensures !IsCreateShapeMode(mode) ==> currentShape == old(currentShape)
    {
      if IsCreateShapeMode(mode) {
        var startX := HighlightX(snapHighlight, mouse.x);
        var startY := HighlightY(snapHighlight, mouse.y);
        currentShape := Some(Shape(freshId, startX, startY, startX, startY, MapEventToShape(mode).value, false));
      }
    }

    /** Recomputes the highlight from the cursor and, in a creation mode,
        moves the end of the shape being drawn to where the previous
        highlight, or else the cursor, was. */
    method MouseMove(mode: EventType, mouse: Position, gridSize: real, freshId: string, sqrt: real -> real)
      requires Valid() && gridSize > 0.0
      requires forall i :: 0 <= i < |shapes| ==> RootsAvailable(shapes[i], mouse, sqrt)
      modifies this
      ensures Valid()
      ensures shapes == old(shapes) && history == old(history)
      ensures snapHighlight == NextHighlight(old(shapes), mouse, old(snapHighlight), gridSize, freshId, sqrt)
      ensures IsCreateShapeMode(mode) && old(currentShape).Some? ==>
        currentShape == Some(old(currentShape).value.(endX := HighlightX(old(snapHighlight), mouse.x),
                                                      endY := HighlightY(old(snapHighlight), mouse.y)))
      ensures !(IsCreateShapeMode(mode) && old(currentShape).Some?) ==> currentShape == old(currentShape)
    {
      var endX := HighlightX(snapHighlight, mouse.x);
      var endY := HighlightY(snapHighlight, mouse.y);
      var snappedShape := FindSnapped(shapes, mouse, sqrt);
      if snappedShape.Some? {
        snapHighlight := ComputeSnappedHighlight(snappedShape.value, mouse, snapHighlight, sqrt);
      } else {
        snapHighlight := GridHighlight(mouse, gridSize, freshId);
      }
      if IsCreateShapeMode(mode) && currentShape.Some? {
        currentShape := Some(currentShape.value.(endX := endX, endY := endY));
      }
    }

    /** In a creation mode with a shape being drawn: commits it, with its
        end moved to the highlight, and records one creation event, unless
        the shape has no extent; either way the drawing ends.  Otherwise
        does nothing. */
    method MouseUp(mode: EventType)
      requires Valid()
      modifies this
      ensures Valid()
      ensures snapHighlight == old(snapHighlight)
      ensures IsCreateShapeMode(mode) && old(currentShape).Some? ==>
        currentShape == None
        && if IsAtTheSamePosition(old(currentShape).value) then
             shapes == old(shapes) && history == old(history)
           else
             shapes == old(shapes) + [Committed(old(currentShape).value, old(snapHighlight))]
             && history == old(history) + [Event(mode, old(currentShape).value)]
      ensures !(IsCreateShapeMode(mode) && old(currentShape).Some?) ==>
        currentShape == old(currentShape) && shapes == old(shapes) && history == old(history)
    {
      if IsCreateShapeMode(mode) && currentShape.Some? {
        if !IsAtTheSamePosition(currentShape.value) {
          shapes := shapes + [Committed(currentShape.value, snapHighlight)];
          history := history + [Event(mode, currentShape.value)];
        }
        currentShape := None;
      }
    }

    /** Pops the last event and, when it records a creation, drops the last
        shape; with no history does nothing. */
    method Undo()
      requires Valid()
      modifies this
      ensures Valid()
      ensures currentShape == old(currentShape) && snapHighlight == old(snapHighlight)
      ensures old(history) == [] ==> shapes == old(shapes) && history == old(history)
      ensures old(history) != [] ==>
        history == old(history)[..|old(history)| - 1] && shapes == old(shapes)[..|old(shapes)| - 1]
    {
      if |history| == 0 {
        return;
      }
      var lastEvent := history[|history| - 1];
      history := history[..|history| - 1];
      if IsCreateShapeMode(lastEvent.eventType) {
        shapes := if |shapes| == 0 then [] else shapes[..|shapes| - 1];
      }
    }

    /** The delete key has no effect. */
    method Delete()
      requires Valid()
      ensures Valid()
      ensures unchanged(this)
    {
    }

    /** Deselects every shape. */
    method Escape()
      requires Valid()
      modifies this
      ensures Valid()
      ensures shapes == ClearSelection(old(shapes))
      ensures currentShape == old(currentShape) && snapHighlight == old(snapHighlight) && history == old(history)
    {
      shapes := ClearSelection(shapes);
    }
  }

  /** Undo right after a committing mouse up restores the shapes, the
      history and the highlight, and ends the drawing. */
  method CommitThenUndo(p: Panel, mode: EventType)
    requires p.Valid() && IsCreateShapeMode(mode)
    requires p.currentShape.Some? && !IsAtTheSamePosition(p.currentShape.value)
    modifies p
    ensures p.Valid()
    ensures p.shapes == old(p.shapes) && p.history == old(p.history)
    ensures p.currentShape == None && p.snapHighlight == old(p.snapHighlight)
  {
    p.MouseUp(mode);
    p.Undo();
  }
}
