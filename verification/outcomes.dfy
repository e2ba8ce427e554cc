/** Failure-carrying datatypes: an optional value and a success-or-error outcome. */
module Outcomes {

  /** A value that may be absent; stands for a Python local that has not been bound yet. */
  datatype Option<T> = None | Some(value: T)

  /** The outcome of an operation that either returns a value or raises an error. */
  datatype Result<R, E> = Success(value: R) | Failure(error: E)
}
