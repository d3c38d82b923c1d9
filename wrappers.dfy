/** Optional values and results with an error, used for the cells a sheet may
    leave empty and for the operations of the payroll page that can fail. */
module Wrappers {

  datatype Option<+T> = None | Some(value: T)

  datatype Result<+T, +E> = Success(value: T) | Failure(error: E)
}
