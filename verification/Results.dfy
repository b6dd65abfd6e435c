/** Values for what the source returns as null or throws as an error. */
module Results {
  datatype Option<+T> = None | Some(value: T)

  datatype Result<+T, +E> = Success(value: T) | Failure(error: E)
}
