/** Failure-compatible wrappers shared by every module of the model. */
module Wrappers {

  /** A value that may be absent (std::optional, or a pointer that may be null). */
  datatype Option<+T> = None | Some(value: T)

  /** Either a value or the failure that stopped the computation. */
  datatype Result<+T, +E> = Success(value: T) | Failure(error: E) {

    predicate IsFailure() {
      Failure?
    }

    function PropagateFailure<U>(): Result<U, E>
      requires Failure?
    {
      Failure(error)
    }

    function Extract(): T
      requires Success?
    {
      value
    }
  }
}
