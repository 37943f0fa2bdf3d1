/** Option and Result, the two failure-carrying datatypes the model uses. */
module Wrappers {

  /** `None` stands for a missing value (a NaN slot of a float array). */
  datatype Option<+T> = None | Some(value: T)

  /** `Failure` stands for an exception raised by the modelled code. */
  datatype Result<+R, +E> = Success(value: R) | Failure(error: E)
}
