/** Failure-compatible return values for the model's partial operations. */
module Wrappers {

  /** A value that may be absent: used for a search that ran out of fuel. */
  datatype Option<+T> = None | Some(value: T)

  /** Either a value or the error the source would have raised instead. */
  datatype Result<+R, +E> = Success(value: R) | Failure(error: E)
}
