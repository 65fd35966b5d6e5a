/** Failure-carrying results shared by the model. */
module Wrappers {

  /** A value, or nothing (used for behaviour the C++ standard leaves undefined). */
  datatype Option<+T> = None | Some(value: T)

  /** A value, or the error the Python code raises. */
  datatype Result<+T, +E> = Ok(value: T) | Err(error: E)
}
