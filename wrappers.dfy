/** The optional-value and success-or-error wrappers used across the model. */
module Wrappers {

  /** A value that may be absent: a JSON field that is missing, or a parse that failed. */
  datatype Option<+T> = None | Some(value: T)

  /** The outcome of a step that either produces a value or reports an error. */
  datatype Result<+R, +E> = Success(value: R) | Failure(error: E)
}
