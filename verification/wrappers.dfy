/** Option and Result, the two failure-carrying shapes the core uses. */
module Wrappers {

  /** Rust's `Option<T>`. */
  datatype Option<+T> = None | Some(value: T) {
    /** `Option::unwrap_or` */
    function GetOr(default: T): T {
      match this
      case Some(v) => v
      case None => default
    }
  }

  /** Rust's `Result<T, E>` (the core's `anyhow::Result` carries its error as `E`). */
  datatype Result<+T, +E> = Ok(value: T) | Err(error: E)
}
