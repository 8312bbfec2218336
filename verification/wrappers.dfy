/** The optional-value datatype used where the driver works with a nullable reference. */
module Wrappers {

  /** `None` plays the part of a C# `null`. */
  datatype Option<+T> = None | Some(value: T)
}
