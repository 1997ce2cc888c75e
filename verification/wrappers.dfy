/**
 Failure-carrying values used by the codec and the authentication protocol.
 */
module Wrappers {

  /** A value that may be missing: the outcome of a decoding that can fail. */
  datatype Option<+T> = None | Some(value: T)

  /** Either a value or the error that was raised instead of producing one. */
  datatype Result<+R, +E> = Success(value: R) | Failure(error: E)
}
