/** The optional value used for the viewer's nullable references. */
module Wrappers {

  /** `None` plays the role of a `null` reference. */
  datatype Option<+T> = None | Some(value: T)
}
