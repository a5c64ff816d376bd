/** Optional values and results with an error, used wherever the application returns "no row"
    or an error message instead of a value. */
module Wrappers {

  datatype Option<+T> = None | Some(value: T)

  datatype Result<+T, +E> = Success(value: T) | Failure(error: E)
}
