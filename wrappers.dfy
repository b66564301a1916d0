/** Failure-compatible wrappers shared by the cart and the customer store:
    `Option` for a value that may be absent, `Result` for an operation that
    either succeeds with a value or fails with an error. */
module Wrappers {

  datatype Option<+T> = None | Some(value: T)

  datatype Result<+R, +E> = Success(value: R) | Failure(error: E)
}
