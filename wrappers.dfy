/** Option: a value that may be missing (a Python `None`, a raised
    exception caught by an `except`, a NaN cell). */
module Wrappers {

  datatype Option<+T> = None | Some(value: T) {

    /** The value, or `default` when there is none. */
    function GetOr(default: T): T {
      match this
      case Some(v) => v
      case None => default
    }
  }
}
