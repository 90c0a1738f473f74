/** Optional values and success-or-failure results, standing in for Go's
    nil-able pointers and its `(value, err error)` return pairs. */
module Wrappers {

  /** A value that may be absent (Go's nil). */
  datatype Option<+T> = None | Some(value: T)

  /** Either a value or an error, never both. */
  datatype Result<+R, +E> = Success(value: R) | Failure(error: E)
}
