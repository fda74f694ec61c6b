module Wrappers {

  datatype Option<+T> = None | Some(value: T)

  datatype Result<+T, +E> = Success(value: T) | Failure(error: E)

  /** How a call ends: with a value, or in HCF because an assertion has failed. */
  datatype Outcome<+T> = Done(value: T) | Halted
}
