/** Wrappers shared by the other modules: `Option` for a
    value that may be absent (Rust's `Option`), `Result` for a computation that
    may fail (Rust's `Result`), `Outcome` for one that returns nothing else. */
module Wrappers {

  datatype Option<+T> = None | Some(value: T) {
    /** The value, or `default` when there is none (Rust's `unwrap_or`). */
    function GetOr(default: T): T {
      match this
      case Some(v) => v
      case None => default
    }
  }

  datatype Result<+R, +E> = Success(value: R) | Failure(error: E)

  datatype Outcome<+E> = Pass | Fail(error: E)
}
