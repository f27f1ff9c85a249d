/** Failure-compatible wrappers used in place of the source's `exit(EXIT_FAILURE)` paths. */
module Wrappers {

  /** A value or nothing; stands for a pointer that may be NULL. */
  datatype Option<+T> = None | Some(value: T)

  /** Either a result or the error that stopped the computation. */
  datatype Result<+R, +E> = Success(value: R) | Failure(error: E) {

    predicate IsFailure() {
      Failure?
    }

    function PropagateFailure<U>(): Result<U, E>
      requires Failure?
    {
      Failure(error)
    }

    function Extract(): R
      requires Success?
    {
      value
    }
  }
}
