/** The optional value and the success-or-error value used across the model. */
module Wrappers {

  datatype Option<+T> = None | Some(value: T)

  /** The outcome of an operation the source lets throw: the value, or the
      error it throws. */
  datatype Result<+T, +E> = Success(value: T) | Failure(error: E)
}
