/** Outcome of an operation that the original program ends with a panic:
    either the value it produces or the reason it stops. */
module Results {

  datatype Result<+T, +E> = Success(value: T) | Failure(error: E)
}
