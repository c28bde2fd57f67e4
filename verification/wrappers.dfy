/** Failure-carrying return types shared by the parsers and the row pipelines. */
module Wrappers {

  /** A value that may be missing (a cell that does not parse, a column that is absent). */
  datatype Option<+T> = None | Some(value: T)

  /** The outcome of classifying one row: an accepted record or the reason it was dropped. */
  datatype Result<+T, +E> = Ok(value: T) | Err(error: E)
}
