/** Success/failure wrappers for the Rust `Option`, `Result<T, E>` and `Result<(), E>` types. */
module Wrappers {

  /** Rust's `Option<T>`. */
  datatype Option<+T> = None | Some(value: T)

  /** Rust's `Result<T, E>`. */
  datatype Result<+T, +E> = Success(value: T) | Failure(error: E)

  /** Rust's `Result<(), E>`: a check that passes or fails with an error. */
  datatype Outcome<+E> = Pass | Fail(error: E)
}
