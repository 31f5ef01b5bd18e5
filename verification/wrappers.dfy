/** Failure-carrying wrappers shared by every module of the model. */
module Wrappers {

  /** A value that may be missing: an absent request field, an empty file slot. */
  datatype Option<+T> = None | Some(value: T)

  /** The outcome of a step that can throw: `Err` carries the message. */
  datatype Result<+T> = Ok(value: T) | Err(message: string)
}
