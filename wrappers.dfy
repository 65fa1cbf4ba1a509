/** Option and Result, used for Java's nullable fields and for thrown exceptions. */
module Wrappers {

  /** A value that may be absent (a Java `null`). */
  datatype Option<+T> = None | Some(value: T) {

    /** The value when present, otherwise `default`. */
    function GetOr(default: T): T {
      match this
      case Some(v) => v
      case None => default
    }
  }

  /** The outcome of an operation that may fail with an error instead of returning. */
  datatype Result<+R, +E> = Success(value: R) | Failure(error: E)
}
