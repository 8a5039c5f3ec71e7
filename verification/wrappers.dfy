/** Failure-compatible result types used throughout the model. */
module Wrappers {

  /** An optional value: a match, a position, a name that may be absent. */
  datatype Option<+T> = None | Some(value: T)

  /** The outcome of an operation that either produces a value or fails with an error.
      Python raises `ValueError` where the model returns `Failure`. */
  datatype Result<+T, +E> = Success(value: T) | Failure(error: E)
}
