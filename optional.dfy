/** Nullable values and error results shared by every part of the model. */
module Optional {

  /** A C# nullable (`string?`, `DateTime?`, an entity reference that may be null). */
  datatype Option<+T> = None | Some(value: T)

  /** A handler outcome: a value on success, a classified failure otherwise. */
  datatype Result<+T, +E> = Success(value: T) | Failure(error: E)
}
