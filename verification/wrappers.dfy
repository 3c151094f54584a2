/** Failure-carrying datatypes used throughout the model. */
module Wrappers {

  /** A value that may be absent; stands in for Java's NaN "undefined" marker
      and for Weka's missing attribute values. */
  datatype Option<+T> = None | Some(value: T)

  /** The outcome of an operation that may throw in the source. */
  datatype Result<+T, +E> = Success(value: T) | Failure(error: E)
}
