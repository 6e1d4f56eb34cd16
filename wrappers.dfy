/** Option and Result, used for the parser's and the decoder's failure paths. */
module Wrappers {

  datatype Option<+T> = None | Some(value: T)

  /** Success or failure; the failure carries which JavaScript exception the source would throw. */
  datatype Result<+R, +E> = Success(value: R) | Failure(error: E)
}
