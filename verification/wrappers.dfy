/** Failure-carrying result type used for the frame decoder and the receive path. */
module Wrappers {

  /** Either a value or the reason it could not be produced. */
  datatype Result<+T, +E> = Success(value: T) | Failure(error: E)
}
