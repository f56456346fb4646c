/** Optional values and results: a missing cell (pandas NaN/NaT) is None,
    a fatal load error is a Failure. */
module Wrappers {

  datatype Option<+T> = None | Some(value: T)

  datatype Result<+R, +E> = Success(value: R) | Failure(error: E)
}
