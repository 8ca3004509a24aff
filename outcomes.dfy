/** Optional values and results with an error, used wherever the converter
    either produces a value or raises. */
module Outcomes {

  datatype Option<+T> = None | Some(value: T)

  datatype Result<+R, +E> = Success(value: R) | Failure(error: E)
}
