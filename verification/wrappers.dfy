/** Failure-carrying datatypes shared by the whole model. */
module Wrappers {

  /** An optional value: `None` where the source has `None`, a failed lookup or a failed system call. */
  datatype Option<+T> = None | Some(value: T) {

    /** The carried value, or `default` when there is none (Rust's `unwrap_or`). */
    function GetOr(default: T): T {
      match this
      case Some(v) => v
      case None => default
    }
  }

  /** A value or an error message, as the source's `Result<T, String>`. */
  datatype Result<+T> = Ok(value: T) | Err(error: string) {

    /** The carried value, or `default` on error (Rust's `unwrap_or_default` with an explicit default). */
    function GetOr(default: T): T {
      match this
      case Ok(v) => v
      case Err(_) => default
    }
  }
}
