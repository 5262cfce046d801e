/** Failure-carrying wrappers shared by the priority queue and the codec. */
module Results {

  /** A slot that may be empty, in place of a Java null reference. */
  datatype Option<+T> = None | Some(value: T)

  /** The outcome of an operation that can throw: a value or the error it raised. */
  datatype Result<+T, +E> = Success(value: T) | Failure(error: E)
}
