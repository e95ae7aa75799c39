/** Failure-carrying values: the model's stand-ins for Java's `null` and for thrown exceptions. */
module Wrappers {

  /** A value that may be absent (a Java reference that may be `null`). */
  datatype Option<+T> = None | Some(value: T)

  /** Either a value or the error that prevented computing it. */
  datatype Result<+T, +E> = Ok(value: T) | Err(error: E)

  /** Success without a value, or the error that made an operation give up. */
  datatype Outcome<+E> = Pass | Fail(error: E)
}
