/** Failure-carrying datatypes shared by the modules of the relay bot model. */
module Wrappers {

  /** A value that may be absent. */
  datatype Option<+T> = None | Some(value: T)

  /** Either a value or an error; models a Python call that may raise. */
  datatype Result<+T, +E> = Success(value: T) | Failure(error: E)
}
