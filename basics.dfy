/** Failure-carrying wrappers shared by every module of the model. */
module Basics {

  /** A value that may be absent: the model's stand-in for a C# `null`. */
  datatype Option<+T> = None | Some(value: T)

  /** The result of an operation that returns a value or throws. */
  datatype Result<+T, +E> = Ok(value: T) | Err(error: E)

  /** The result of an operation that returns nothing or throws. */
  datatype Outcome<+E> = Pass | Fail(error: E)
}
