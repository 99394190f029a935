/** Failure-carrying result types shared by the modules of this model. */
module Wrappers {

  /** A value that may be absent: a SQL row that `.one()` did not find, a resolver's `null`. */
  datatype Option<T> = None | Some(value: T)

  /** A value or the message of the `Error` that was thrown instead. */
  datatype Result<T> = Success(value: T) | Failure(error: string)

  /** The completion of an `async` method that returns nothing: it resolved, or it threw. */
  datatype Outcome = Pass | Fail(error: string)
}
