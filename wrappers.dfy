/** Option and Result, the two failure-carrying wrappers the model uses
    for JavaScript's `null`/`undefined` and for thrown exceptions. */
module Wrappers {

  datatype Option<+T> = None | Some(value: T)

  datatype Result<+R, +E> = Success(value: R) | Failure(error: E)
}
