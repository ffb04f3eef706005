/** Failure-compatible wrappers used across the model: an optional value
    (Java's nullable reference) and a value-or-error result (a method that
    either returns or throws a checked exception). */
module Results {

  datatype Option<+T> = None | Some(value: T)

  datatype Result<+T, +E> = Success(value: T) | Failure(error: E)
}
