/** The records the selector produces and the monitor consumes: the locator
    descriptor, the serializable record of where an element was when it was
    selected, and the element information the selection hands back. They
    are built once and only read afterwards. */
module Descriptor {
  import opened Wrappers
  import opened Tree

  /** One step of the structural path, describing one ancestor (or the
      element itself). */
  datatype PathSegment = PathSegment(name: string, automationId: string, className: string, controlType: string)

  datatype Locator = Locator(
    automationId: string,
    name: string,
    className: string,
    controlType: string,
    processId: int,
    path: seq<PathSegment>)

  /** The locator every field of which still holds its initial value. */
  const EmptyLocator := Locator("", "", "", "", 0, [])

  /** What a confirmed selection produces. */
  datatype ElementInfo = ElementInfo(
    name: string,
    automationId: string,
    className: string,
    controlType: string,
    value: string,
    runtimeId: Option<seq<int>>,
    boundingRect: Option<Rect>,
    processId: int,
    locator: Locator)
}
