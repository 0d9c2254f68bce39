/** Option and Result, the two failure-carrying shapes the parsers return. */
module Wrappers {

  datatype Option<+T> = None | Some(value: T)

  /** A parser run either produces its value or stops with the error Python would raise. */
  datatype Result<+T, +E> = Success(value: T) | Failure(error: E)
}
