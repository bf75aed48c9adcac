/** Failure-carrying values used where the Python code returns None or raises. */
module Wrappers {

  datatype Option<+T> = None | Some(value: T)

  /** `Err` stands for an exception the Python code raises, with its message. */
  datatype Result<+T, +E> = Ok(value: T) | Err(error: E)
}
