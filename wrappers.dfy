/** Failure-carrying result types shared by every component of the model. */
module Wrappers {

  datatype Option<+T> = None | Some(value: T)

  /** The value of a Swift function that either returns or throws. */
  datatype Result<+T, +E> = Success(value: T) | Failure(error: E)

  /** The value of a Swift function that returns nothing or throws. */
  datatype Outcome<+E> = Pass | Fail(error: E)
}
