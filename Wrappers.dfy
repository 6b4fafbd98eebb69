/** Option and Result values used to model Python's None and raised exceptions. */
module Wrappers {

  datatype Option<+T> = None | Some(value: T)

  /** A call either returns a value or raises an error. */
  datatype Result<+T, +E> = Success(value: T) | Failure(error: E)
}
