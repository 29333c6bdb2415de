/** Failure-compatible wrappers used throughout the model. */
module Wrappers {

  /** A value that may be absent (a `null` or a failed lookup in the source). */
  datatype Option<+T> = None | Some(value: T)

  /** The outcome of an operation that can throw: a value, or the error it raises. */
  datatype Result<+T, +E> = Success(value: T) | Failure(error: E)
}
