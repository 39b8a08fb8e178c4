/** Result carriers standing in for Python's `None` returns and raised exceptions. */
module Wrappers {

  /** A lookup that may find nothing (Python's `Optional[T]`). */
  datatype Option<+T> = None | Some(value: T)

  /** A computation that either yields a value or raises a typed error. */
  datatype Result<+T, +E> = Success(value: T) | Failure(error: E)

  /** A check that either passes (returns `None` in Python) or raises a typed error. */
  datatype Outcome<+E> = Pass | Fail(error: E)
}
