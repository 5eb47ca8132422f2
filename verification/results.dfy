/** Failure-compatible wrappers shared by the modules of this model. */
module Results {

  /** A value that may be absent (Kotlin's nullable `T?`). */
  datatype Option<T> = None | Some(value: T)

  /** The outcome of an operation that may throw: a value, or the exception it raises. */
  datatype Result<T, E> = Ok(value: T) | Err(error: E)
}
