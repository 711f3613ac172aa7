/** Optional values, and the outcome of an operation that may raise: a value,
    or the error it raised. */
module Results {

  datatype Option<+T> = None | Some(value: T)

  datatype Result<+T, +E> = Success(value: T) | Failure(error: E)

}
