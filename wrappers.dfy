/** Option and Result, standing in for JavaScript's `null` and thrown exceptions. */
module Wrappers {

  /** A value or JavaScript's `null`. */
  datatype Option<+T> = None | Some(value: T)

  /** A normal return or a thrown exception. */
  datatype Result<+R, +E> = Success(value: R) | Failure(error: E)
}
