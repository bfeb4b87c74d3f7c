/** Optional values and results with an error, as the rest of the model uses them. */
module Wrappers {

  /** A value that may be absent, like a missing key of a Python dict (`dict.get` giving `None`). */
  datatype Option<+T> = None | Some(value: T)

  /** The outcome of an operation that either returns a value or raises an error. */
  datatype Result<+R, +E> = Success(value: R) | Failure(error: E)
}
