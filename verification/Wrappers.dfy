/** Failure-compatible results shared by the other modules. */
module Wrappers {

  datatype Option<+T> = None | Some(value: T)

  /** The outcome of a call that reports errors as values. */
  datatype Result<+T, +E> = Ok(value: T) | Err(error: E)

  /** The outcome of a call that either returns or panics, ending the process. */
  datatype Outcome<+T> = Returned(value: T) | Panicked
}
