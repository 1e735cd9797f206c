/** Failure-carrying result types shared by every module of the model. */
module Wrappers {

  /** A value that may be absent: a nil Go reference (`(*T)(nil)`) versus a present value. */
  datatype Option<+T> = None | Some(value: T) {

    /** The carried value, or `default` when absent. */
    function GetOr(default: T): T {
      match this
      case Some(v) => v
      case None => default
    }
  }

  /** Either a value or an error, as Go's `(T, error)` pair with exactly one of them set. */
  datatype Result<+T, +E> = Success(value: T) | Failure(error: E)
}
