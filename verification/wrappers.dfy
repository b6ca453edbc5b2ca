/** Failure-carrying results used across the model. */
module Wrappers {

  /** A value that may be absent: the solver's `False`/`None` results become `None`. */
  datatype Option<+T> = None | Some(value: T)

  /** A computation that either succeeds with a value or fails with a reason. */
  datatype Result<+T> = Success(value: T) | Failure(error: string)
}
