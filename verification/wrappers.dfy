/** The optional-value and result wrappers shared by the other modules (a null
    reference, a not-yet-seen tombstone index, a read that throws). */
module Wrappers {

  datatype Option<+T> = None | Some(value: T)

  /** The outcome of an operation that can throw: a value, or the error it
      threw. */
  datatype Result<+T, +E> = Success(value: T) | Failure(error: E)
}
