/** The two result shapes shared by every component. */
module Wrappers {

  datatype Option<+T> = None | Some(value: T)

  /** A Go call that returns a value and an error: Done is "error is nil". */
  datatype Outcome<+T> = Done(value: T) | Failed
}
