/** Option and Result, for JavaScript's `undefined` and for the exceptions
    the dialog's code would throw. */
module Wrappers {

  datatype Option<+T> = None | Some(value: T)

  datatype Result<+R, +E> = Success(value: R) | Failure(error: E)
}
