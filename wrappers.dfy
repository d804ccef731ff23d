/** Option and Outcome values standing for Python's None and for raised errors. */
module Wrappers {

  /** A value that may be absent (Python's `None`). */
  datatype Option<+T> = None | Some(value: T) {
    function GetOr(default: T): T {
      match this
      case Some(v) => v
      case None => default
    }
  }

  /** The result of an operation that either completes or raises. */
  datatype Outcome<+E> = Pass | Fail(error: E)
}
