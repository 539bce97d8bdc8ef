/** The values the drawing engine works on: positions, shapes, the two
    enumerations, selection bounds and the history event.  Every shape is a
    value; the panel replaces shapes rather than updating them. */
module Shapes {

  datatype Option<T> = None | Some(value: T)

  /** A value, or the error an operation throws. */
  datatype Result<T> = Ok(value: T) | Error(message: string)

  /** A point of the drawing plane, in device pixels. */
  datatype Position = Position(x: real, y: real)

  /** The kinds of shape.  `Point` only marks a grid-snap highlight. */
  datatype ShapeType = Line | Rectangle | Circle | Point

  /** The tool modes of the toolbar. */
  datatype EventType = Select | CreateLine | CreateRectangle | CreateCircle

  /** A shape is two defining points whose meaning depends on its kind: the
      endpoints of a line, opposite corners of a rectangle, or the centre of a
      circle and a point on its circumference.  An absent selection flag is
      `false`. */
  datatype Shape = Shape(
    id: string,
    startX: real, startY: real,
    endX: real, endY: real,
    kind: ShapeType,
    isSelected: bool)
  {
    function Start(): Position { Position(startX, startY) }
    function End(): Position { Position(endX, endY) }
  }

  /** A straight piece from `a` to `b`: a line shape or one side of a box. */
  datatype Segment = Segment(a: Position, b: Position)

  /** The box a selection drag sweeps, `min` on the upper-left. */
  datatype SelectionBounds = SelectionBounds(minX: real, minY: real, maxX: real, maxY: real)

  /** One entry of the panel's history: the mode that created a shape, and
      that shape as it was drawn. */
  datatype Event = Event(eventType: EventType, data: Shape)
}
