/** Failure-carrying datatypes used in place of JavaScript's `undefined` and thrown errors. */
module Wrappers {

  /** A value that may be absent; `None` stands for JavaScript's `undefined`. */
  datatype Option<+T> = None | Some(value: T)

  /** The outcome of a call that returns a value or throws an error. */
  datatype Result<+T, +E> = Ok(value: T) | Err(error: E)

  /** The outcome of a call that returns nothing or throws an error. */
  datatype Outcome<+E> = Pass | Fail(error: E)
}
