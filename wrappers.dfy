/** Option and Result, used for absent JSON fields, missed lookups and validation outcomes. */
module Wrappers {

  datatype Option<+T> = None | Some(value: T)

  datatype Result<+T, +E> = Success(value: T) | Failure(error: E)
}
