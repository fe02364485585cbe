/** Optional values and success/failure results shared by every module. */
module Wrappers {

  /** A value that may be absent: JavaScript's `undefined`/`null` versus a present value. */
  datatype Option<+T> = None | Some(value: T)

  /** The outcome of a controller: a payload, or the error it throws. */
  datatype Result<+T, +E> = Success(value: T) | Failure(error: E)
}
