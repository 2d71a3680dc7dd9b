/** Option, Result and the outcome of a computation that may panic. */
module Wrappers {

  /** Rust's `Option<T>`. */
  datatype Option<+T> = None | Some(value: T) {
    function GetOr(default: T): T {
      match this
      case Some(v) => v
      case None => default
    }
  }

  /** Rust's `Result<T, E>`. */
  datatype Result<+T, +E> = Ok(value: T) | Err(error: E)

  /**
   * What a Rust computation that may panic does: it either finishes with a
   * value or aborts the thread (`unwrap` on `None`, `panic!`, an arithmetic
   * overflow in a debug build). The message says which.
   */
  datatype Outcome<+T> = Done(value: T) | Panic(message: string)
}
