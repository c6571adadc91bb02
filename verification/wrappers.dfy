/** Failure-carrying datatypes shared by the other modules. */
module Wrappers {

  /** A value that may be absent (a regex search with no match, a timestamp that does not parse). */
  datatype Option<+T> = None | Some(value: T)

  /** A value or the error that stopped its computation. */
  datatype Result<+T, +E> = Ok(value: T) | Err(error: E)
}
