/** Option and Result: the failure-carrying values the model returns in place of
    JavaScript's `undefined` and thrown exceptions. */
module Wrappers {

  datatype Option<+T> = None | Some(value: T)

  datatype Result<+R, +E> = Success(value: R) | Failure(error: E)
}
