/** Option and Result, the error-carrying return types of the model. */
module Results {

  datatype Option<T> = None | Some(value: T)

  /** `Failure` stands for a `raise` in the Python source. */
  datatype Result<T, E> = Success(value: T) | Failure(error: E)
}
