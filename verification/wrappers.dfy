/** Failure-compatible wrappers used for absent values and error returns. */
module Wrappers {

  /** A value that may be missing: a null pointer in the viewer's terms. */
  datatype Option<+T> = None | Some(value: T)

  /** The outcome of an operation that can fail with an error of type E. */
  datatype Result<+T, +E> = Success(value: T) | Failure(error: E)
}
