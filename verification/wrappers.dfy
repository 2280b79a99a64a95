/** Result and option types shared by the whole model. */
module Wrappers {

  /** A value that may be absent, as an optional field of a thrown error. */
  datatype Option<+T> = None | Some(value: T)

  /** Either a computed value or the error an operation threw. */
  datatype Result<+T, +E> = Success(value: T) | Failure(error: E)
}
