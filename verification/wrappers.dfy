/** Failure-carrying datatypes shared by the whole model. */
module Wrappers {

  /** A value that may be absent; stands for TypeScript's `T | null` and `T | undefined`. */
  datatype Option<+T> = None | Some(value: T)

  /** The settled outcome of an operation that can throw: a value or an error. */
  datatype Result<+T, +E> = Ok(value: T) | Err(error: E)
}
