/** Failure-carrying wrapper types shared by every module of the model. */
module Wrappers {

  /** A value that may be absent (JavaScript `null`, `undefined` or `NaN`). */
  datatype Option<+T> = None | Some(value: T) {

    /** The wrapped value, or `default` when absent (JavaScript `x || default`). */
    function GetOr(default: T): T {
      match this
      case Some(v) => v
      case None => default
    }
  }

  /** The outcome of an operation that either produces a value or is rejected with a reason. */
  datatype Result<+R, +E> = Ok(value: R) | Err(error: E)
}
