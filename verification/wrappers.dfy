/** Failure-carrying datatypes shared by every contract model. */
module Wrappers {

  /** An optional value: a storage slot that may be empty. */
  datatype Option<+T> = None | Some(value: T)

  /** A value or an error, the shape of Rust's `Result<T, E>`. */
  datatype Result<+T, +E> = Ok(value: T) | Err(error: E)

  /** A check that either passes or fails with an error, Rust's `Result<(), E>`. */
  datatype Outcome<+E> = Pass | Fail(error: E)
}
