/** Optional values and success/failure results shared by every module of the model. */
module Outcomes {

  datatype Option<+T> = None | Some(value: T) {
    function GetOr(default: T): T {
      match this
      case Some(v) => v
      case None => default
    }
  }

  /** The value of a Go call that returns `(T, error)`: either the value or the error. */
  datatype Result<+T, +E> = Ok(value: T) | Err(error: E)
}
