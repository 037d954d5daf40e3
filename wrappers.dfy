/** Failure-carrying values used where the source throws or returns null. */
module Wrappers {

  /** A value that may be absent (`null` / `undefined` in the source). */
  datatype Option<+T> = None | Some(value: T)

  /** The outcome of an operation that either completes or throws an error. */
  datatype Outcome<+E> = Pass | Fail(error: E)

  /** A computed value, or the error the source would throw instead. */
  datatype Result<+R, +E> = Success(value: R) | Failure(error: E)
}
