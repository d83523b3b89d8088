/** Optional values and results with an error, shared by every service. */
module Wrappers {

  /** A nullable value (Java `null`, an empty `Optional`, a Kotlin `T?`). */
  datatype Option<+T> = None | Some(value: T)

  /** The outcome of an operation that either returns a value or throws. */
  datatype Result<+T, +E> = Ok(value: T) | Err(error: E)
}
