/** Failure-carrying wrappers for the Go pairs `(value, error)` and for optional values. */
module Results {

  /** A value that may be absent. */
  datatype Option<+T> = None | Some(value: T)

  /** A Go `(value, err)` pair: either the value (err == nil) or the error. */
  datatype Result<+T, +E> = Success(value: T) | Failure(error: E)
}
