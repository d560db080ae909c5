/** Small result types shared by the other modules. */
module Wrappers {

  /** A value that may be absent (a file that may be missing). */
  datatype Option<T> = None | Some(value: T)

  /** The outcome of an operation that may end in an uncaught exception. */
  datatype Result<T, E> = Ok(value: T) | Err(error: E)
}
