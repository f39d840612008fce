/** Optional values and error-carrying results used throughout the model. */
module Wrappers {

  /** A value that may be absent (a PHP `null`). */
  datatype Option<T> = None | Some(value: T) {
    function GetOr(default: T): T {
      match this
      case Some(v) => v
      case None => default
    }
  }

  /** The outcome of a request that yields a value or an error response. */
  datatype Result<T, E> = Ok(value: T) | Err(error: E)

  /** The outcome of a request that yields only success or an error response. */
  datatype Outcome<E> = Pass | Fail(error: E)
}
