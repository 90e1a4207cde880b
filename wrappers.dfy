/** Option and Result, used for JavaScript's `undefined` and for thrown errors. */
module Wrappers {

  /** `None` stands for JavaScript's `undefined`. */
  datatype Option<+T> = None | Some(value: T)

  /** `Err` stands for a rejected promise (an exception thrown by an async function). */
  datatype Result<+T, +E> = Ok(value: T) | Err(error: E)
}
