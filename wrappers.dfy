/** Optional values, standing for Python's `X | None` and Rust's `Option<X>`. */
module Wrappers {

  datatype Option<+T> = None | Some(value: T) {

    /** The value, or `default` when there is none (`unwrap_or`). */
    function GetOr(default: T): T {
      match this
      case Some(v) => v
      case None => default
    }
  }

  /** An outcome that is either a value or a raised error. */
  datatype Result<+T, +E> = Ok(value: T) | Err(error: E)
}
