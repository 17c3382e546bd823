/** The optional value used throughout the model. */
module Wrappers {

  /** Something present or absent: a missing payload, an empty fixed-comment slot. */
  datatype Option<+T> = None | Some(value: T)
}
