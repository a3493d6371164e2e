/** Failure-carrying return values, standing in for Go's `(value, error)` pairs. */
module Results {

  /** A value that may be absent. */
  datatype Option<+T> = None | Some(value: T)

  /** A value, or the error that was returned instead of it. */
  datatype Result<+T, +E> = Ok(value: T) | Err(error: E)

  /** A bare `error` return: nil (Pass) or an error value (Fail). */
  datatype Outcome<+E> = Pass | Fail(error: E)
}
