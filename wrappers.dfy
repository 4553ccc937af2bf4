/** Option and Result, the plain wrappers the rest of the model uses for Python's None
    and for its raised exceptions; callers match on them explicitly. */
module Wrappers {

  datatype Option<+T> = None | Some(value: T)

  /** A computation that either returns a value or raises an exception `error`. */
  datatype Result<+T, +E> = Success(value: T) | Failure(error: E)
}
