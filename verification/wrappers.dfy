/** Option and Result, the values the parsers of the model return. */
module Wrappers {

  datatype Option<+T> = None | Some(value: T)

  /** Either a computed value or the error that the original program raises as an exception. */
  datatype Result<+T, +E> = Success(value: T) | Failure(error: E)
}
