/** Failure-carrying wrappers used by every stage of the decoder. */
module Wrappers {

  /** A value that may be missing: a stage of the source that would panic
      (an `unwrap` of an error, an out-of-range slice) yields `None`. */
  datatype Option<+T> = None | Some(value: T)

  /** A value or the reason it could not be produced. */
  datatype Result<+T, +E> = Success(value: T) | Failure(error: E)
}
