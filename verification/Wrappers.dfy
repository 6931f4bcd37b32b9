/** Optional values and success-or-error results, used wherever the modelled
    code returns `undefined` or throws. */
module Wrappers {

  /** A value that may be absent (`undefined` in the modelled code). */
  datatype Option<+T> = None | Some(value: T)

  /** The outcome of an operation that can fail with an error of type E. */
  datatype Result<+R, +E> = Success(value: R) | Failure(error: E)
}
