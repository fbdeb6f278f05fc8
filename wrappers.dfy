/** Optional values and fallible results shared by the other modules. */
module Wrappers {

  /** A value that may be missing: JavaScript's `undefined`/`null`. */
  datatype Option<+T> = None | Some(value: T)

  /** The outcome of an operation that may throw. */
  datatype Result<+T, +E> = Ok(value: T) | Err(error: E)
}
