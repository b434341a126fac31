/** Failure-compatible wrappers shared by every module of the model: Python's
    `None` becomes `Option.None`, and an exception a caller can observe becomes
    `Result.Failure` carrying the exception's message. */
module Wrappers {

  datatype Option<+T> = None | Some(value: T) {

    /** Python's `x or default` for an optional value. */
    function GetOr(default: T): T {
      match this
      case Some(v) => v
      case None => default
    }
  }

  datatype Result<+R, +E> = Success(value: R) | Failure(error: E)
}
