/** Option and Result, the two outcome shapes the detector model uses. */
module Wrappers {

  /** A value that may be absent (Python's `None`). */
  datatype Option<+T> = None | Some(value: T)

  /** A computation that either produces a value or ends with an error. */
  datatype Result<+R, +E> = Success(value: R) | Failure(error: E)
}
