/** Failure-carrying result types shared by the whole model. */
module Wrappers {

  /** A value that may be absent: Python's `None` versus a present value. */
  datatype Option<+T> = None | Some(value: T)

  /** The outcome of a computation that may raise: `Failure` carries the
      message of the exception the source would have raised. */
  datatype Result<+T> = Success(value: T) | Failure(error: string)
}
