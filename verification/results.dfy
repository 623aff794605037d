/** Option and Result values for the operations that the source ends with a
    raised exception instead of a return value. */
module Results {

  datatype Option<+T> = None | Some(value: T)

  datatype Result<+T, +E> = Success(value: T) | Failure(error: E)
}
