/** Optional values and results with an error, used where the program returns
    `undefined`-like absence or exits the process. */
module Wrappers {
  datatype Option<+T> = None | Some(value: T)

  datatype Result<+T, +E> = Success(value: T) | Failure(error: E)
}
