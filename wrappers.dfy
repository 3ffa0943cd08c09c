/** Option and Result, the failure-carrying values the governor's operations return
    in place of the source's early returns, `?` propagation and fatal exits. */
module Wrappers {

  datatype Option<+T> = None | Some(value: T)

  datatype Result<+R, +E> = Success(value: R) | Failure(error: E)
}
