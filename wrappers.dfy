/** Absence and failure: JavaScript's `undefined`/`null` and thrown exceptions. */
module Wrappers {

  /** A value that may be absent (`undefined` or `null` in the host). */
  datatype Option<+T> = None | Some(value: T)

  /** The outcome of an evaluation that may throw. */
  datatype Result<+T, +E> = Ok(value: T) | Err(error: E)
}
