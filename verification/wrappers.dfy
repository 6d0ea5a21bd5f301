/** Absence and failure as values, in place of JavaScript's `null` and thrown errors. */
module Wrappers {

  /** A value that may be absent (`null` / `undefined` in the source). */
  datatype Option<+T> = None | Some(value: T)

  /** The outcome of a call the store may refuse. */
  datatype Result<+T, +E> = Success(value: T) | Failure(error: E)
}
