/** Option and Result, the two failure-carrying shapes the modelled code uses
    (Rust's `Option<T>` and `anyhow::Result<T>`). */
module Wrappers {

  datatype Option<+T> = None | Some(value: T)
  {
    /** The held value, or `default` when there is none. */
    function GetOr(default: T): T
    {
      match this
      case Some(v) => v
      case None => default
    }
  }

  /** `Err` carries the error message the source formats. */
  datatype Result<+T, +E> = Ok(value: T) | Err(error: E)
}
