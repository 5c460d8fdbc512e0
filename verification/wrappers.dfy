/** Option and Result, shared by the model's modules. */
module Wrappers {

  /** A value that may be absent (a missing dictionary entry, an empty argument list). */
  datatype Option<+T> = None | Some(value: T)

  /** The outcome of an operation that can raise in the source program. */
  datatype Result<+T, +E> = Ok(value: T) | Err(error: E)
}
