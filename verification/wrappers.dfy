/** Option and Result values, standing in for Python's `None` and for raised exceptions. */
module Wrappers {

  /** A value that may be absent, as an optional command-line argument is. */
  datatype Option<+T> = None | Some(value: T)

  /** The outcome of a step that either produces a value or raises an error. */
  datatype Result<+T, +E> = Success(value: T) | Failure(error: E)
}
