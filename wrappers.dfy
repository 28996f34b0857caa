/** Failure-compatible wrappers: a missing value (`null`/`undefined` in the
    source) and a result that is either a value or a raised error. */
module Wrappers {

  datatype Option<+T> = None | Some(value: T)

  datatype Result<+R, +E> = Success(value: R) | Failure(error: E)
}
