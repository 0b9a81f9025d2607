/** Optional and fallible values shared by the other modules. */
module Wrappers {

  /** A value that may be absent (an uninitialised slot, a call that panicked). */
  datatype Option<+T> = None | Some(value: T)

  /** A computation that either produced a value or failed with an error. */
  datatype Result<+T, +E> = Ok(value: T) | Err(error: E)
}
