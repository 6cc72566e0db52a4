/** Optional values and results with an error, for the absent JSON keys and the failures of the builder. */
module Wrappers {

  datatype Option<+T> = None | Some(value: T)

  datatype Result<+R, +E> = Success(value: R) | Failure(error: E)
}
