/** Optional values and plain result types that stand for the source's optionals and thrown errors. */
module Wrappers {

  /** An optional value: Swift's `T?`. */
  datatype Option<+T> = None | Some(value: T)

  /** The result of a throwing Swift function that returns a value. */
  datatype Result<+R, +E> = Success(value: R) | Failure(error: E)

  /** The result of a throwing Swift function that returns nothing. */
  datatype Outcome<+E> = Pass | Fail(error: E)
}
