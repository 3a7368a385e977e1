/** Option and Result, the failure-carrying wrappers the model uses for optional values and for
    decode operations that can throw. */
module Wrappers {

  datatype Option<+T> = None | Some(value: T)

  /** A decode step either yields a value or reports the error the C++ code throws. */
  datatype Result<+T, +E> = Success(value: T) | Failure(error: E)
}
