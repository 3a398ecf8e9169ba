/** Failure-carrying wrappers shared by every module of the model. */
module Wrappers {

  /** A value that may be absent: PHP's `null`, Python's `None`. */
  datatype Option<+T> = None | Some(value: T) {
    function GetOr(default: T): T {
      match this
      case Some(v) => v
      case None => default
    }
  }

  /** Either a value or the exception the source would have raised. */
  datatype Result<+T, +E> = Ok(value: T) | Err(error: E)
}
