/** Optional values and error-carrying results, shared by every module of the model. */
module Wrappers {

  /** A value that may be absent: a nil pointer, a missing map entry, `undefined`. */
  datatype Option<+T> = None | Some(value: T)

  /** The outcome of an operation that either succeeds with a value or fails with an error. */
  datatype Result<+T, +E> = Success(value: T) | Failure(error: E)
}
