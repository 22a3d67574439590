/** Failure-carrying values shared by the model: an optional value and the
    outcome of a Python expression that either yields a value or raises. */
module Wrappers {

  /** Python's `None` or a value. */
  datatype Option<+T> = None | Some(value: T)

  /** The two Python exceptions the modelled code can raise. */
  datatype PyError =
    | TypeError(message: string)
    | KeyError(key: string)

  /** A value, or the exception raised while computing it. */
  datatype Result<+T> = Success(value: T) | Failure(error: PyError)
}
