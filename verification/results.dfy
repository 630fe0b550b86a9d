/** Failure-carrying values used in place of Go's `(value, error)` pairs. */
module Results {

  /** A value that may be absent: a lookup that misses, a parse that fails. */
  datatype Option<+T> = None | Some(value: T)

  /** The outcome of an operation that returns either a value or an error. */
  datatype Result<+T, +E> = Ok(value: T) | Err(error: E)
}
