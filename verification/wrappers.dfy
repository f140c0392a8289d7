/** Failure-compatible wrappers shared by the whole model. */
module Wrappers {

  /** A value that may be absent: the model's stand-in for a nullable reference. */
  datatype Option<+T> = None | Some(value: T) {

    /** The wrapped value, or `default` when absent (the source's `??` operator). */
    function GetOr(default: T): T {
      match this
      case Some(v) => v
      case None => default
    }
  }

  /** Either a value or the exception a call throws instead. */
  datatype Result<+R, +E> = Success(value: R) | Failure(error: E)
}
