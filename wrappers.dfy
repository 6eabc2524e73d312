/** Optional values and success-or-error results, shared by every module. */
module Wrappers {

  /** A value that may be absent: a field left undefined or a lookup that found nothing. */
  datatype Option<+T> = None | Some(value: T) {
    function GetOr(default: T): T {
      match this
      case Some(v) => v
      case None => default
    }
  }

  /** The outcome of a request: the value it produced, or the error it was rejected with. */
  datatype Result<+T, +E> = Ok(value: T) | Err(error: E)
}
