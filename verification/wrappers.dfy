/** Optional values and success/failure results shared by every module of the model. */
module Wrappers {

  /** A value that may be absent: Python's `None` versus a present value. */
  datatype Option<+T> = None | Some(value: T)

  /** Either a computed value or the error that the script would raise. */
  datatype Result<+R, +E> = Success(value: R) | Failure(error: E)
}
