/** The Option and Result datatypes. */
module Wrappers {

  /** A value that may be absent (Python's `None`). */
  datatype Option<+T> = None | Some(value: T)

  /** A computation that either produced a value or raised with a message. */
  datatype Result<+R, +E> = Success(value: R) | Failure(error: E)
}
