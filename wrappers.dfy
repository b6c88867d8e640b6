/** Optional values and results: Java's `null` and thrown exceptions. */
module Wrappers {

  /** `None` stands for Java's `null`. */
  datatype Option<T> = None | Some(value: T)

  /** A value, or the error a Java method would throw. */
  datatype Result<T, E> = Ok(value: T) | Err(error: E)
}
