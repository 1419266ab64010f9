/** Option and Result: Python's `None` and the exceptions the harness raises. */
module Wrappers {

  datatype Option<+T> = None | Some(value: T)

  /** A `Failure` is an exception of the modelled function; `Success` its return value. */
  datatype Result<+T, +E> = Success(value: T) | Failure(error: E) {
    predicate IsFailure() {
      Failure?
    }

    function PropagateFailure<U>(): Result<U, E>
      requires Failure?
    {
      Failure(error)
    }

    function Extract(): T
      requires Success?
    {
      value
    }
  }
}
