/** Option and Result, the shapes every boundary translation returns in. */
module Wrappers {

  datatype Option<+T> = None | Some(value: T)

  /** Either the value an operation builds or the exception it throws. */
  datatype Result<+R, +E> = Success(value: R) | Failure(error: E)
}
