/** Failure-carrying datatypes used across the model. */
module Wrappers {

  /** `None` stands for an absent value (a missing directory, a NaN score, an IndexError). */
  datatype Option<+T> = None | Some(value: T)

  /** An operation that either succeeds with a value or raises an error. */
  datatype Result<+R, +E> = Success(value: R) | Failure(error: E)
}
