/** Failure-compatible wrappers used across the model. */
module Wrappers {

  /** A value that may be absent: a missing token, a request field that is not there. */
  datatype Option<+T> = None | Some(value: T)

  /** The outcome of a step that either produces a value or raises an error. */
  datatype Result<+R, +E> = Success(value: R) | Failure(error: E)
}
