/** Failure-compatible wrappers shared by the model: a JavaScript value that may be
    `undefined` is an `Option`, an operation that can throw is a `Result`. */
module Wrappers {

  datatype Option<+T> = None | Some(value: T)

  datatype Result<+R, +E> = Success(value: R) | Failure(error: E)
}
