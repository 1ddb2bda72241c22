/** Failure-carrying wrappers shared by every module of the model. */
module Base {

  /** A value that may be absent: JavaScript's `null`/`undefined`, or a number that is NaN. */
  datatype Option<+T> = None | Some(value: T) {

    /** The carried value, or `default` when absent (JavaScript's `??`). */
    function GetOr(default: T): T {
      match this
      case Some(v) => v
      case None => default
    }
  }

  /** The outcome of an operation that can fail with an error of type E. */
  datatype Result<+R, +E> = Success(value: R) | Failure(error: E)
}
