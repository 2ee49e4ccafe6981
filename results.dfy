/** Failure-carrying values: Rust's `Option`, `Result` and `Result<(), E>`. */
module Results {

  /** Rust's `Option<T>`. */
  datatype Option<+T> = None | Some(value: T)

  /** Rust's `Result<T, E>` for a value-carrying result. */
  datatype Result<+T, +E> = Ok(value: T) | Err(error: E)

  /** Rust's `Result<(), E>`: a check that either passes or reports one error. */
  datatype Outcome<+E> = Pass | Fail(error: E)
}
