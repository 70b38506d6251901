/** Failure-compatible result types shared by every module of the model. */
module Wrappers {

  /** A value that may be absent: JavaScript's `null` / `undefined`. */
  datatype Option<T> = None | Some(value: T)

  /** The outcome of a handler: a value, or the error it passes to `next(error)`. */
  datatype Result<T, E> = Ok(value: T) | Err(error: E)
}
