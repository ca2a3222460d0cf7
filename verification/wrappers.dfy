/**
 * Optional values and results with an error, used wherever the source has
 * `null`/`undefined`/`NaN` or raises an exception.
 */
module Wrappers {

  /** A value that may be absent (a missing DOM element, a null attribute). */
  datatype Option<+T> = None | Some(value: T)

  /** A computation that either succeeds with a value or fails with an error. */
  datatype Result<+T, +E> = Success(value: T) | Failure(error: E)
}
