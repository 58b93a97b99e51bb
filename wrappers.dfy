/** Option and Result, the two failure-carrying shapes the rest of the model uses. */
module Wrappers {

  /** An optional value: JavaScript's `undefined`/`null` or a value. */
  datatype Option<+T> = None | Some(value: T)

  /** The outcome of an operation that can be refused with a message. */
  datatype Result<+T, +E> = Ok(value: T) | Err(error: E)
}
