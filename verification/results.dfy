/** Failure-carrying wrappers shared by every module of the model, and the
    error conditions the bootstrap estimator can raise. */
module Results {

  /** A value that may be absent, as Python's `None`. */
  datatype Option<+T> = None | Some(value: T)

  /** The outcome of a computation that raises on some inputs. Supports `:-`. */
  datatype Result<+T, +E> = Success(value: T) | Failure(error: E) {

    predicate IsFailure() {
      Failure?
    }

    function PropagateFailure<U>(): Result<U, E>
      requires Failure?
    {
      Failure(error)
    }

    function Extract(): T
      requires Success?
    {
      value
    }
  }

  /** The exceptions the estimator can raise.
      AllNaNSlice: numpy's nanargmin on a row with no non-NaN cell.
      MissingTimeIndex: the grouped distance computation called without timestamps.
      EmptyReduction: a row-wise argmin or nanmin over a matrix with no rows,
      where the reduced axis has length zero.
      EmptyFeatures: the distance computation's input validation refusing an
      array with no feature columns (an empty feature sample).
      NegativeSampleSize: drawing a feature sample of negative size. */
  datatype Error = AllNaNSlice | MissingTimeIndex | EmptyReduction | EmptyFeatures | NegativeSampleSize
}
