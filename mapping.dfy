/** From a creation mode to the kind of shape it draws. */
module Mapping {
  import opened Shapes
  import opened Conditions

  /** The shape kind a creation mode draws; any other mode is an error. */
  function MapEventToShape(mode: EventType): (r: Result<ShapeType>)
    ensures r.Ok? <==> IsCreateShapeMode(mode)
    ensures r.Ok? ==> r.value != Point
    ensures r.Error? ==> r.message == "Invalid event type"
  {
    match mode
    case CreateLine => Ok(Line)
    case CreateRectangle => Ok(Rectangle)
    case CreateCircle => Ok(Circle)
    case _ => Error("Invalid event type")
  }

  /** Each creation mode draws its own kind, so distinct modes draw distinct
      kinds. */
  lemma MappingIsInjective(m1: EventType, m2: EventType)
    requires IsCreateShapeMode(m1) && IsCreateShapeMode(m2)
    requires MapEventToShape(m1) == MapEventToShape(m2)
    ensures m1 == m2
  {
  }

  lemma MappedKinds()
    ensures MapEventToShape(CreateLine) == Ok(Line)
    ensures MapEventToShape(CreateRectangle) == Ok(Rectangle)
    ensures MapEventToShape(CreateCircle) == Ok(Circle)
    ensures MapEventToShape(Select).Error?
  {
  }
}
