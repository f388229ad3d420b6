/** Failure-compatible wrappers used throughout the model. */
module Wrappers {

  /** A value that may be absent (Python's `Optional`, `None` being absent). */
  datatype Option<T> = None | Some(value: T) {

    /** The wrapped value, or `default` when absent (Python's `dict.get(k, default)` shape). */
    function GetOr(default: T): T {
      match this
      case Some(v) => v
      case None => default
    }
  }

  /** A computed value, or the exception that stopped the computation. */
  datatype Result<T, E> = Ok(value: T) | Err(error: E)

  /** A step that either completes or is stopped by an exception. */
  datatype Outcome<E> = Pass | Fail(error: E)
}
