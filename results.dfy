/** The outcome of an operation that can raise. */
module Results {
  datatype Result<+T, +E> = Success(value: T) | Failure(error: E)
}
