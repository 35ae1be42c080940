/** Failure-carrying result types used by the shopping-cart model. */
module Wrappers {

  /** A value that may be absent, e.g. a series that was never attached. */
  datatype Option<+T> = None | Some(value: T)

  /** Either a successful value or the error that a constructor raised. */
  datatype Result<+R, +E> = Success(value: R) | Failure(error: E)
}
