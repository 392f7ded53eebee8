/** Option and Result, the two failure-carrying shapes used throughout the model. */
module Wrappers {

  datatype Option<+T> = None | Some(value: T)

  /** A Python call that either returns a value or raises the exception `error`. */
  datatype Result<+T, +E> = Success(value: T) | Failure(error: E)
}
