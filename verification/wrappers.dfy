/** Option and Result: the model's stand-ins for Java's `null` returns and
    thrown exceptions, and for Rust's `io::Result`. */
module Wrappers {

  /** A possibly missing value; `None` plays the part of a Java `null`. */
  datatype Option<+T> = None | Some(value: T)

  /** The outcome of an operation that either succeeds with a value or fails
      with an error; a failure never carries a partially updated state. */
  datatype Result<+T, +E> = Ok(value: T) | Err(error: E) {
    /** The value after the operation, or `default` when it failed. */
    function GetOr(default: T): T
    {
      match this
      case Ok(v) => v
      case Err(_) => default
    }
  }
}
