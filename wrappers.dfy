/** Option and Result, used where the Java code returns null or throws. */
module Wrappers {

  /** A Java reference that may be null. */
  datatype Option<+T> = None | Some(value: T)

  /** The outcome of an operation that may throw an exception. */
  datatype Result<+T, +E> = Ok(value: T) | Err(error: E)
}
