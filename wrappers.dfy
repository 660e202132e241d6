/**
 * Option and Result, standing for Rust's `Option<T>` and `Result<T, E>`.
 */
module Wrappers {

  datatype Option<T> = None | Some(value: T)
  {
    /** Rust's `unwrap_or`. */
    function UnwrapOr(default: T): T
    {
      if Some? then value else default
    }
  }

  datatype Result<T, E> = Ok(value: T) | Err(error: E)
}
