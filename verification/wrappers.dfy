/** Failure-carrying result types shared by the modules of this model. A Java
    exception that the modelled code lets escape becomes a `Failure`. */
module Wrappers {

  /** A value that may be absent: Java's `null` for a reference. */
  datatype Option<+T> = None | Some(value: T)

  /** Either the value an operation computed or the error it raised. */
  datatype Result<+R, +E> = Success(value: R) | Failure(error: E) {

    predicate IsFailure() {
      Failure?
    }

    function PropagateFailure<U>(): Result<U, E>
      requires Failure?
    {
      Failure(error)
    }

    function Extract(): R
      requires Success?
    {
      value
    }
  }
}
