/** Option and Result: the walker's rules return a Result instead of throwing. */
module Wrappers {

  datatype Option<+T> = None | Some(value: T)

  /** A value, or the defect that aborted the computation; usable with `:-`. */
  datatype Result<+T, +E> = Success(value: T) | Failure(error: E) {

    predicate IsFailure() {
      Failure?
    }

    function PropagateFailure<U>(): Result<U, E>
      requires Failure?
    {
      Failure(error)
    }

    function Extract(): T
      requires Success?
    {
      value
    }
  }
}
