/** Optional values and success/failure results shared by every module. */
module Wrappers {

  /** A value that may be absent: a JSON field that is missing or null. */
  datatype Option<+T> = None | Some(value: T) {

    /** The wrapped value, or `default` when absent (JavaScript's `x || default` on objects). */
    function GetOr(default: T): T {
      match this
      case Some(v) => v
      case None => default
    }
  }

  /** The outcome of an endpoint: a response body or an error. */
  datatype Result<+R, +E> = Success(value: R) | Failure(error: E)
}
