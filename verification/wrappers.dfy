/** Failure-compatible wrappers used by the model: an optional value and a
    success-or-error result. */
module Wrappers {

  /** A value that may be absent; GDAL reports a band without a nodata value as None. */
  datatype Option<+T> = None | Some(value: T)

  /** Either a computed value or the error that stopped the computation. */
  datatype Result<+R, +E> = Success(value: R) | Failure(error: E)
}
