/** Option and Result datatypes: a C# null reference becomes None, and an
    exception thrown by a service method becomes a Failure carrying its kind. */
module Wrappers {

  datatype Option<+T> = None | Some(value: T)

  datatype Result<+R, +E> = Success(value: R) | Failure(error: E)
}
