/** Optional values and results with an error: the model's stand-ins for
    JavaScript's `null` and for a thrown `Error`. */
module Wrappers {

  /** `None` plays the part of `null` (an absent storage key, no session). */
  datatype Option<+T> = None | Some(value: T)

  /** A call that either returns a value or throws an error of kind `E`. */
  datatype Result<+T, +E> = Success(value: T) | Failure(error: E)
}
