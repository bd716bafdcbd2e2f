/** Failure-carrying results: the model's stand-in for the C++ exceptions of the core. */
module Wrappers {

  /** A value, or the error that was thrown instead of producing it. */
  datatype Result<+T, +E> = Success(value: T) | Failure(error: E)

  /** The outcome of an operation that produces no value but may throw. */
  datatype Outcome<+E> = Pass | Fail(error: E)
}
