/** Failure-carrying datatypes shared by the other modules. */
module Wrappers {

  /** A value that may be absent: a regular-expression match that may fail. */
  datatype Option<+T> = None | Some(value: T)

  /** The outcome of an operation that can reject, as a JavaScript promise can. */
  datatype Result<+R, +E> = Success(value: R) | Failure(error: E) {

    predicate IsFailure() {
      Failure?
    }

    function PropagateFailure<U>(): Result<U, E>
      requires Failure?
    {
      Failure(error)
    }

    function Extract(): R
      requires Success?
    {
      value
    }
  }
}
