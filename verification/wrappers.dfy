/** Failure-carrying results for the Python exceptions the modelled code can raise. */
module Wrappers {

  /** The exception a Python list operation raises on a bad subscript. */
  datatype Error = IndexError

  datatype Option<+T> = None | Some(value: T)

  datatype Result<+T> = Success(value: T) | Failure(error: Error)
}
