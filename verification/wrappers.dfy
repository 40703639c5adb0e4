/** Failure results: the source raises where these models return `Err`. */
module Wrappers {

  /** The exceptions the modelled code raises. */
  datatype Error =
    | AssertionError  // an `assert` statement failed
    | ValueError      // `raise ValueError(...)`, or numpy rejecting a negative size
    | IndexError      // numpy rejecting an index outside the array

  datatype Result<+T> = Ok(value: T) | Err(error: Error)
}
