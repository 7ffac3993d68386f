/** Optional values and error outcomes shared by the other modules. */
module Wrappers {

  /** A value that may be absent (Python's `None`, or a dictionary key that is not set). */
  datatype Option<+T> = None | Some(value: T) {

    /** The held value, or `default` when there is none. */
    function GetOr(default: T): T {
      match this
      case Some(v) => v
      case None => default
    }
  }

  /** The outcome of an operation that can fail. */
  datatype Result<+R, +E> = Ok(value: R) | Err(error: E)
}
