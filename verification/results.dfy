/** Outcomes of the operations whose Java code can throw: a division by zero
    in the Bayer means, an index of -1 into the Hough histogram, a write past
    the end of the `lines` array. */
module Results {

  /** Either the computed value or the exception the Java code would raise;
      the three members below let `:-` stop at the first exception. */
  datatype Result<+T, +E> = Success(value: T) | Failure(error: E) {

    /** An exception was raised. */
    predicate IsFailure() {
      Failure?
    }

    /** Re-raises the exception under another value type. */
    function PropagateFailure<U>(): Result<U, E>
      requires Failure?
    {
      Failure(error)
    }

    /** The value computed when nothing was raised. */
    function Extract(): T
      requires Success?
    {
      value
    }
  }
}
