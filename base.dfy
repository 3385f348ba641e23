/** Optional values, results with an error, and bytes: the vocabulary shared by the backend and the page. */
module Base {
  /** A value that may be absent; stands in for a Java reference that may be null. */
  datatype Option<+T> = None | Some(value: T)

  /** A computation that either returns a value or throws; stands in for Java and JavaScript exceptions. */
  datatype Result<+R, +E> = Success(value: R) | Failure(error: E)

  newtype byte = x: int | 0 <= x < 256
}
