/** Optional values and results with an error branch, used for the parse
    oracle and for the exceptions the download pipeline throws. */
module Wrappers {

  datatype Option<+T> = None | Some(value: T)

  datatype Result<+T, +E> = Success(value: T) | Failure(error: E)
}
