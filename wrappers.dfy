/** Option and Result, used for values a JavaScript object may lack and for error returns. */
module Wrappers {

  /** A value that may be absent (`undefined` in the original). */
  datatype Option<+T> = None | Some(value: T)

  /** The outcome of an operation that can fail. */
  datatype Result<+T, +E> = Ok(value: T) | Err(error: E)
}
