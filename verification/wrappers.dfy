/** Failure-carrying result type used where the modelled JavaScript throws. */
module Wrappers {

  /** Either the computed value or the error that interrupted the computation. */
  datatype Result<+T, +E> = Success(value: T) | Failure(error: E)
}
