/** How the model writes Java's nulls and exceptions. */
module Wrappers {

  /** A nullable reference or an `Optional`. */
  datatype Option<+T> = None | Some(value: T)

  /** A value, or the exception thrown instead; usable with `:-`. */
  datatype Result<+T, +E> = Success(value: T) | Failure(error: E) {

    predicate IsFailure() {
      Failure?
    }

    function PropagateFailure<U>(): Result<U, E>
      requires Failure?
    {
      Failure(error)
    }

    function Extract(): T
      requires Success?
    {
      value
    }
  }

  /** A `void` call: it returned, or it threw `error`. */
  datatype Outcome<+E> = Pass | Fail(error: E)
}
