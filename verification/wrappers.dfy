/** Failure-carrying values used by the handlers: an optional read result and
    a result that is either a value or an error message. */
module Wrappers {

  /** A value that may be absent (a JavaScript `undefined`). */
  datatype Option<+T> = None | Some(value: T) {

    /** The value if present, `default` otherwise (the `x || default` idiom). */
    function GetOr(default: T): T {
      match this
      case Some(v) => v
      case None => default
    }
  }

  /** Either a computed value or the message of the error that was thrown. */
  datatype Result<+R, +E> = Success(value: R) | Failure(error: E)
}
