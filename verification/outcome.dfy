/** Failure-carrying results of the codec's partial operations. */
module Outcome {

  /** A value that may be absent, such as a character's symbol value. */
  datatype Option<+T> = None | Some(value: T)

  /** A computation that either produces a value or fails with an error. */
  datatype Result<+T, +E> = Success(value: T) | Failure(error: E)
}
