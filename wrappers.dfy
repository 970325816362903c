/** Failure-carrying values used by every module of the model: Rust's `Option` and `Result`. */
module Wrappers {

  datatype Option<+T> = None | Some(value: T)

  datatype Result<+T, +E> = Ok(value: T) | Err(error: E)

  /**
   * What a call does with Rust's integer overflow checks on: it returns a
   * value, or it panics because an arithmetic operation overflowed.
   */
  datatype Outcome<+T> = Returns(value: T) | Panics
}
