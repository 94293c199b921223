/** Option and Result values, used for the source's `null`s and thrown errors. */
module Wrappers {

  /** A value that may be absent: `string | null` and missing properties. */
  datatype Option<+T> = None | Some(value: T)

  /** The outcome of a call that either returns a value or throws an error
      carrying a message. */
  datatype Result<+T, +E> = Success(value: T) | Failure(error: E)
}
