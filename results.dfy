/** Option and Result values: the model's stand-in for `undefined` and for thrown errors. */
module Results {

  datatype Option<T> = None | Some(value: T)

  datatype Result<T, E> = Success(value: T) | Failure(error: E)
}
