/** Option and Result: the failure-carrying values the model returns where the
    program would panic on an `unwrap`. */
module Wrappers {

  datatype Option<+T> = None | Some(value: T)

  datatype Result<+R, +E> = Success(value: R) | Failure(error: E)
}
