/** Optional values (Java's nullable references) and success-or-error outcomes. */
module Wrappers {

  /** A value that may be absent; `None` stands for a Java `null`. */
  datatype Option<+T> = None | Some(value: T)

  /** The result of an operation that either succeeds with a value or raises an error. */
  datatype Outcome<+T, +E> = Ok(value: T) | Err(error: E)
}
