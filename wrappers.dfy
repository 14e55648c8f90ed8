/** Optional values and error-carrying results, used for Go's `(value, ok)`
    and `(value, error)` returns and for TypeScript's optional fields. */
module Wrappers {

  datatype Option<+T> = None | Some(value: T) {
    function GetOr(default: T): T {
      match this
      case Some(v) => v
      case None => default
    }
  }

  datatype Result<+T, +E> = Ok(value: T) | Err(error: E)
}
