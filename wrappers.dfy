/** Option and Result, used for NULL-able values and for the errors the
    extension raises with ereport(ERROR, ...). */
module Wrappers {

  datatype Option<+T> = None | Some(value: T)

  datatype Result<+R, +E> = Success(value: R) | Failure(error: E)
}
