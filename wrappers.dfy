/** Option and Result, the two ways the modelled Go code reports absence and failure. */
module Wrappers {

  /** A Go pointer or map entry that may be missing. */
  datatype Option<+T> = None | Some(value: T)

  /** A Go `(value, error)` pair in which exactly one half is meaningful. */
  datatype Result<+T, +E> = Success(value: T) | Failure(error: E)
}
