/** Option and Result, used for Python's None and for exceptions that propagate. */
module Wrappers {

  datatype Option<+T> = None | Some(value: T) {
    /** The Python idiom `x or default` for an optional value. */
    function GetOr(default: T): T {
      match this
      case Some(v) => v
      case None => default
    }
  }

  datatype Result<+T, +E> = Ok(value: T) | Err(error: E)
}
