/** Option and Result, used for "record or nothing" lookups and for the
    services' exception paths. */
module Wrappers {

  datatype Option<+T> = None | Some(value: T)

  datatype Result<+R, +E> = Success(value: R) | Failure(error: E)
}
