/** Option and Result values shared by the other modules. */
module Wrappers {

  /** The outcome of a `TryParse`: a value, or nothing when the text does not parse. */
  datatype Option<+T> = None | Some(value: T)

  /** The outcome of a call that may throw: a value, or the error that aborted it. */
  datatype Result<+T> = Ok(value: T) | Err(error: string)
}
