/** Failure-carrying results: T-Trace raises `ValueError(reason)` or returns a decision with a reason. */
module Prelude {

  datatype Option<+T> = None | Some(value: T)

  datatype Result<+T, +E> = Ok(value: T) | Err(error: E)
}
