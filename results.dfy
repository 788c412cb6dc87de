/** Optional values and success-or-failure results, standing for JavaScript's
    `undefined` and for a thrown exception or rejected promise. */
module Results {

  datatype Option<+T> = None | Some(value: T)

  datatype Result<+T, +E> = Success(value: T) | Failure(error: E)
}
