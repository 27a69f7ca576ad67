/** Optional values and error-or-value results, as used by the request types and handlers. */
module Wrappers {

  /** A field that may be absent (`undefined` in the wire format). */
  datatype Option<+T> = None | Some(value: T) {
    /** The value, or `default` when absent (the `??` operator). */
    function GetOr(default: T): T {
      match this
      case Some(v) => v
      case None => default
    }
  }

  /** Either a value or an error response. */
  datatype Result<+R, +E> = Success(value: R) | Failure(error: E)
}
