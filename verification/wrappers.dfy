/** Option, Result and Outcome: the absent values and the thrown errors of the bot, as values. */
module Wrappers {

  datatype Option<+T> = None | Some(value: T)

  /** A value, or the error the source would throw instead of returning it. */
  datatype Result<+T, +E> = Success(value: T) | Failure(error: E)

  /** Success without a value, or the error the source would report. */
  datatype Outcome<+E> = Pass | Fail(error: E)
}
