/** Failure-carrying return types shared by the model. */
module Results {

  /** An optional value: the absence of a cache entry, of a field, of a size. */
  datatype Option<+T> = None | Some(value: T)

  /** Either a computed value or the error the running code would raise. */
  datatype Result<+T, +E> = Success(value: T) | Failure(error: E)
}
