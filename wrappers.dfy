/** Optional values and results shared by the codec, the framing layer and the two engines. */
module Wrappers {

  /** A value that may be missing, like Python's `None`. */
  datatype Option<+T> = None | Some(value: T)

  /** The outcome of an operation that can fail with an error of type E. */
  datatype Result<+T, +E> = Success(value: T) | Failure(error: E)
}
