/** Option and Result: the model's stand-ins for null and for thrown exceptions. */
module Wrappers {

  datatype Option<+T> = None | Some(value: T)

  /** A computation that either produces a value or stops with the error the source would throw. */
  datatype Result<+R, +E> = Success(value: R) | Failure(error: E)
}
