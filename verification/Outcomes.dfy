/** Optional values and the failures that the modelled programs throw or return. */
module Outcomes {

  datatype Option<+T> = None | Some(value: T)

  /** A failure-compatible result, usable with `:-`. */
  datatype Result<+T, +E> = Success(value: T) | Failure(error: E) {
    predicate IsFailure() {
      Failure?
    }

    function PropagateFailure<U>(): Result<U, E>
      requires Failure?
    {
      Failure(error)
    }

    function Extract(): T
      requires Success?
    {
      value
    }
  }
}
