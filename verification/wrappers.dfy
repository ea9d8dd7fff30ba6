/** Option and Result datatypes used across the model: `Option` for values that
    may be null or undefined, `Result` for operations that may throw. */
module Wrappers {

  /** A value that may be absent (`null` / `undefined` on the TypeScript side). */
  datatype Option<+T> = None | Some(value: T)

  /** The outcome of an operation that either returns a value or throws. */
  datatype Result<+R, +E> = Success(value: R) | Failure(error: E)
}
