/** Optional values and results that carry an error instead of throwing. */
module Wrappers {

  datatype Option<+T> = None | Some(value: T)

  /** A C++ function that throws is a function to Result; Failure is the exception. */
  datatype Result<+T, +E> = Success(value: T) | Failure(error: E) {

    predicate IsFailure() {
      Failure?
    }

    function PropagateFailure<U>(): Result<U, E>
      requires Failure?
    {
      Failure(error)
    }

    function Extract(): T
      requires Success?
    {
      value
    }
  }
}
