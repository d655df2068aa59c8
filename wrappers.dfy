/** Option and Result, the failure-carrying values used where the C code
    returns NULL or an error code. */
module Wrappers {

  datatype Option<+T> = None | Some(value: T)

  datatype Result<+R, +E> = Success(value: R) | Failure(error: E)
}
