/** Optional values and results with an error, as used throughout the model. */
module Wrappers {

  /** A value that may be absent (a Java reference that may be null). */
  datatype Option<+T> = None | Some(value: T) {
    /** The wrapped value, or `default` when absent. */
    function GetOr(default: T): T {
      match this
      case Some(v) => v
      case None => default
    }
  }

  /** The outcome of an operation that may throw: its value, or the message it fails with. */
  datatype Result<+T, +E> = Ok(value: T) | Err(error: E)
}
