/** Option and Result, the failure-compatible wrappers the rest of the model uses. */
module Wrappers {

  /** A value that may be absent: a null pointer or a missing request member. */
  datatype Option<+T> = None | Some(value: T)

  /** A value, or the error a C++ exception would have carried instead. */
  datatype Result<+R, +E> = Success(value: R) | Failure(error: E) {

    predicate IsFailure() {
      Failure?
    }

    function PropagateFailure<U>(): Result<U, E>
      requires Failure?
    {
      Failure(error)
    }

    function Extract(): R
      requires Success?
    {
      value
    }
  }
}
