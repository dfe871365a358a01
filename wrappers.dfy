/** Result types for operations that may fail, shared by the scheduler and the cache models. */
module Wrappers {

  /** A value that may be absent: Python's `Optional[T]`, with `None` for absence. */
  datatype Option<+T> = None | Some(value: T)

  /** The outcome of an operation that returns nothing but may raise an exception. */
  datatype Outcome<+E> = Pass | Fail(error: E)

  /** The outcome of an operation that returns a value or raises an exception. */
  datatype Result<+R, +E> = Success(value: R) | Failure(error: E)
}
