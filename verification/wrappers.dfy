/** Failure-carrying wrappers used throughout the model: an optional value,
    a value-or-error result, and a pass/fail outcome for operations that
    return nothing but may throw. */
module Wrappers {

  /** Swift's `T?`. */
  datatype Option<+T> = None | Some(value: T) {

    /** Swift's `??` operator. */
    function GetOr(default: T): T {
      match this
      case Some(v) => v
      case None => default
    }
  }

  /** A Swift function that either returns a value or throws an error. */
  datatype Result<+R, +E> = Success(value: R) | Failure(error: E)

  /** A Swift `throws` function returning `Void`. */
  datatype Outcome<+E> = Pass | Fail(error: E)
}
