/** Optional values and success/failure results, used for the error paths of the model. */
module Wrappers {

  /** A value that may be absent (Python's `None`). */
  datatype Option<+T> = None | Some(value: T)

  /** Either a computed value or the error that stopped the computation
      (a raised `ValueError` in the modelled code). */
  datatype Result<+T, +E> = Success(value: T) | Failure(error: E)
}
