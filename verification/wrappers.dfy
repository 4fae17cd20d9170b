/** Failure-compatible wrappers shared by the checker's modules. */
module Wrappers {

  /** A value that may be absent; used where the checker returns NULL or "no diagnostic". */
  datatype Option<+T> = None | Some(value: T)

  /** A computation that either produces a value or stops with an error. */
  datatype Result<+T, +E> = Ok(value: T) | Err(error: E)
}
