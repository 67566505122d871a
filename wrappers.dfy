/** Option and Result values standing in for C#'s nullable references and
    Python's or C#'s exceptions. */
module Wrappers {

  datatype Option<+T> = None | Some(value: T)

  datatype Result<+T, +E> = Success(value: T) | Failure(error: E)
}
