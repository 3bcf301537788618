/** Option and Result, the failure-carrying values the model uses for `null`
    references and for exceptions of the C# code. */
module Wrappers {

  datatype Option<+T> = None | Some(value: T)

  datatype Result<+T, +E> = Success(value: T) | Failure(error: E)
}
