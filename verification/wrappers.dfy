/** Failure-carrying wrappers shared by the codec, the socket shim and the reducers. */
module Wrappers {

  /** A value that may be absent (Rust's `Option`, JavaScript's `undefined`/`null`). */
  datatype Option<+T> = None | Some(value: T)

  /** A computation that either succeeds with a value or fails with an error. */
  datatype Result<+T, +E> = Success(value: T) | Failure(error: E)
}
