/** Option and Result, used for the lookups that may miss and the operations that may fail. */
module Wrappers {

  /** A value that may be absent, in place of a null reference. */
  datatype Option<+T> = None | Some(value: T)

  /** Either a value or the reason there is none, in place of a thrown exception. */
  datatype Result<+T, +E> = Success(value: T) | Failure(error: E)
}
