/** The two wrapper types the model uses for "maybe absent" and
    "value or error". */
module Results {

  datatype Option<+T> = None | Some(value: T)

  datatype Result<+T, +E> = Success(value: T) | Failure(error: E)
}
