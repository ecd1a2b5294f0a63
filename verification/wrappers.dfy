/** Failure-carrying return values: the model's stand-in for Go's `(value, error)` pairs. */
module Wrappers {

  /** A value that may be absent; used for an error that may be nil. */
  datatype Option<+T> = None | Some(value: T)

  /** Either a value or the error that prevented computing it. */
  datatype Result<+R, +E> = Success(value: R) | Failure(error: E)
}
