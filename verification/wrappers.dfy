/** Failure-carrying datatypes used to model the exceptions of the cache:
    a `Result` for an operation that returns a value or throws, an `Outcome`
    for one that returns nothing or throws. */
module Wrappers {

  /** A value, or the error an operation raised instead of returning it. */
  datatype Result<+T, +E> = Success(value: T) | Failure(error: E)

  /** Normal completion, or the error an operation raised. */
  datatype Outcome<+E> = Pass | Fail(error: E)
}
