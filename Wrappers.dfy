/** Swift optionals, `throws` results and `throws -> Void` outcomes as datatypes. */
module Wrappers {

  /** A Swift optional `T?`. */
  datatype Option<+T> = None | Some(value: T)

  /** The outcome of a Swift function that returns a `T` or throws an `E`. */
  datatype Result<+T, +E> = Success(value: T) | Failure(error: E)

  /** The outcome of a throwing Swift function that returns nothing. */
  datatype Outcome<+E> = Pass | Fail(error: E)
}
