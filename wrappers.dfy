/** Failure-carrying values shared by every module: a Python `None` and a raised error. */
module Wrappers {

  /** A value that may be absent (Python's `None`). */
  datatype Option<+T> = None | Some(value: T)

  /** The outcome of an operation that can raise: its value, or the error's message. */
  datatype Result<+T> = Ok(value: T) | Err(message: string)
}
