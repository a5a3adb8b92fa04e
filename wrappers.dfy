/** Optional values and results of fallible remote calls. */
module Wrappers {

  /** A value that may be absent (`null`/`undefined` in the store's records). */
  datatype Option<+T> = None | Some(value: T)

  /** The outcome of a remote query: its rows, or the error it reported. */
  datatype Result<+T, +E> = Ok(value: T) | Err(error: E)
}
