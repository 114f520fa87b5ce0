/** Failure-compatible result and option types shared by the modules below. */
module Wrappers {

  datatype Option<+T> = None | Some(value: T)

  /** Either a value or the error that replaced it (the model of a raised exception). */
  datatype Result<+R, +E> = Success(value: R) | Failure(error: E) {

    predicate IsFailure() {
      Failure?
    }

    function PropagateFailure<U>(): Result<U, E>
      requires Failure?
    {
      Failure(error)
    }

    function Extract(): R
      requires Success?
    {
      value
    }
  }
}
