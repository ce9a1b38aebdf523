/** Failure-compatible result types used by the firmware-version decoder. */
module Wrappers {

  datatype Option<+T> = None | Some(value: T)

  /** Success carries a decoded value; Failure carries the exception the source would raise. */
  datatype Result<+R, +E> = Success(value: R) | Failure(error: E) {

    predicate IsFailure() {
      Failure?
    }

    function PropagateFailure<U>(): Result<U, E>
      requires Failure?
    {
      Failure(error)
    }

    function Extract(): R
      requires Success?
    {
      value
    }
  }
}
