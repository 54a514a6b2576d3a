/** Optional values and success-or-exception results. A Java method that
    either returns or throws becomes a function returning `Result`. */
module Results {

  datatype Option<+T> = None | Some(value: T)

  datatype Result<+T, +E> = Success(value: T) | Failure(error: E)
}
