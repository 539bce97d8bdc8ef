/** Which tool modes draw a new shape. */
module Conditions {
  import opened Shapes

  /** The three creation modes; `Select` and any other mode are not. */
  predicate IsCreateShapeMode(mode: EventType)
  {
    mode == CreateCircle || mode == CreateLine || mode == CreateRectangle
  }

  /** The selection tool never creates a shape, and each creation tool does. */
  lemma CreateModes()
    ensures !IsCreateShapeMode(Select)
    ensures IsCreateShapeMode(CreateLine)
    ensures IsCreateShapeMode(CreateRectangle)
    ensures IsCreateShapeMode(CreateCircle)
  {
  }
}
