/** Option and Result, the failure-carrying shapes used across the model. */
module Wrappers {
  datatype Option<+T> = None | Some(value: T)

  /** A Python call either returns a value or raises an exception. */
  datatype Result<+T, +E> = Success(value: T) | Failure(error: E)
}
