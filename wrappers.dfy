/** Failure-carrying values shared by the modules of this model. */
module Wrappers {

  /** A value that may be absent, as Python's `None` or JavaScript's `undefined`. */
  datatype Option<+T> = None | Some(value: T) {
    function GetOr(default: T): T {
      match this
      case Some(v) => v
      case None => default
    }
  }

  /** The outcome of a call that returns a value or raises the error `E`. */
  datatype Result<+T, +E> = Ok(value: T) | Err(error: E)
}
