/** Failure-carrying return types used where the source raises or never returns. */
module Wrappers {

  /** `None` marks a computation that does not return a value. */
  datatype Option<+T> = None | Some(value: T)

  /** `Err` carries the message of an exception the source raises. */
  datatype Result<+T> = Ok(value: T) | Err(error: string)
}
