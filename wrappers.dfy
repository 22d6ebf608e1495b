/** Option and Result: the absent value and the error path of the services. */
module Wrappers {

  datatype Option<+T> = None | Some(value: T)

  /** A service call either returns a value or raises one of the source's exceptions. */
  datatype Result<+R, +E> = Success(value: R) | Failure(error: E)
}
