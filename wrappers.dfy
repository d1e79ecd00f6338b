/** Option and Result values shared by every module of the model. */
module Wrappers {

  datatype Option<+T> = None | Some(value: T)

  /** The outcome of an operation that the program reports either as a value or as an error. */
  datatype Result<+T, +E> = Success(value: T) | Failure(error: E)
}
