/** Failure-carrying results standing in for the exceptions the containers throw. */
module Wrappers {

  /** A value, or the error that replaced it. */
  datatype Result<+R, +E> = Ok(value: R) | Err(error: E)

  /** Success without a value, or the error that replaced it. */
  datatype Outcome<+E> = Pass | Fail(error: E)
}
