/** The Option and Result datatypes used by the model. */
module Wrappers {

  /** A value that may be missing: pandas' NaN cell is `None`. */
  datatype Option<+T> = None | Some(value: T)

  /** The outcome of an operation that can raise. */
  datatype Result<+R, +E> = Success(value: R) | Failure(error: E)
}
