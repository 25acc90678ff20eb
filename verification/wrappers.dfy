/** Failure-carrying datatypes shared by the routing-engine models. */
module Wrappers {

  /** A value that may be absent: Java's `null` or a NaN result. */
  datatype Option<+T> = None | Some(value: T)

  /** Either a value or the exception the Java code would throw instead. */
  datatype Result<+T, +E> = Success(value: T) | Failure(error: E)
}
