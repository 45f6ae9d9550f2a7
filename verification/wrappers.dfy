/** Failure-compatible wrappers used across the model. */
module Wrappers {

  /** A value that may be absent (JavaScript `null`/`undefined`, or a regex that did not match). */
  datatype Option<+T> = None | Some(value: T)

  /** Either a value or an error message (a JavaScript `throw new Error(message)`). */
  datatype Result<+T> = Ok(value: T) | Err(message: string)
}
