/** Optional values and results with an error, used for the nulls and the
    exceptions of the converter. */
module Wrappers {

  /** A value that may be absent (a C# `null` reference). */
  datatype Option<+T> = None | Some(value: T)

  /** The outcome of an operation that throws in the C# editor code. */
  datatype Result<+T, +E> = Ok(value: T) | Err(error: E)
}
