/** Failure-carrying result types shared by every module of the model. */
module Wrappers {

  /** A value that may be absent: the source's `null` or `long?`. */
  datatype Option<+T> = None | Some(value: T)

  /** The outcome of an operation that can throw: `Err` carries what it threw. */
  datatype Result<+T, +E> = Ok(value: T) | Err(error: E)
}
