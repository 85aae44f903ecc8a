/** Option and Result, the two failure-carrying types the model uses. */
module Wrappers {

  /** A value that may be absent: a missing dictionary key or an unset filter. */
  datatype Option<+T> = None | Some(value: T) {
    function GetOr(default: T): T {
      match this
      case Some(v) => v
      case None => default
    }
  }

  /** The outcome of an operation that raises an error in the source. */
  datatype Result<+R, +E> = Ok(value: R) | Err(error: E)
}
