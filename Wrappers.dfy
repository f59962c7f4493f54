/** Optional values and results with an error, used across the model. */
module Wrappers {

  /** A value that may be absent: JavaScript's `null`/`undefined` against a present value. */
  datatype Option<+T> = None | Some(value: T)

  /** The outcome of a check: a value that passed, or the message explaining why it did not. */
  datatype Result<+T, +E> = Ok(value: T) | Err(error: E)
}
