/** The failure-compatible values used throughout the model. */
module Wrappers {
  datatype Option<+T> = None | Some(value: T)

  /** A C++ result: either a value or the exception that was thrown instead. */
  datatype Result<+T, +E> = Success(value: T) | Failure(error: E)
}
