/** Option and Result, the usual failure-compatible wrappers. A `None` field value
    stands for a missing (NaN) cell of the exported table. */
module Wrappers {

  datatype Option<+T> = None | Some(value: T)

  datatype Result<+R, +E> = Success(value: R) | Failure(error: E)
}
