/** Optional values and results with an error, used where the Go code returns
    `nil` or a second `error` value. */
module Wrappers {

  datatype Option<+T> = None | Some(value: T)

  datatype Result<+T, +E> = Success(value: T) | Failure(error: E)
}
