/** Option and Result values shared by the other modules. */
module Wrappers {

  /** A value that may be missing (JavaScript's `null` / `undefined`). */
  datatype Option<+T> = None | Some(value: T)

  /** The outcome of a callback: `callback(null, value)` or `callback(err)`. */
  datatype Result<+R, +E> = Success(value: R) | Failure(error: E)
}
