/** Option and Result: the decoder's nullable inputs and the throwing hex guard. */
module Results {

  /** A value that may be JavaScript's `null`. */
  datatype Option<+T> = None | Some(value: T)

  /** The outcome of a primitive that either returns a value or throws. */
  datatype Result<+T, +E> = Success(value: T) | Failure(error: E) {

    predicate IsFailure() {
      Failure?
    }

    function PropagateFailure<U>(): Result<U, E>
      requires Failure?
    {
      Failure(error)
    }

    function Extract(): T
      requires Success?
    {
      value
    }
  }
}
