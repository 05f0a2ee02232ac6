/** Failure-compatible wrappers shared by every module of the model. */
module Wrappers {

  /** A value that may be absent: JavaScript's `null` / `undefined`. */
  datatype Option<+T> = None | Some(value: T) {
    /** `x ?? default` */
    function GetOr(default: T): T {
      if Some? then value else default
    }
  }

  /** The outcome of an operation that can reject (a thrown error or a rejected promise). */
  datatype Result<+T, +E> = Success(value: T) | Failure(error: E)
}
