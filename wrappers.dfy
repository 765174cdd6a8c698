/** Failure-carrying values shared by the query pipeline and the directory loader. */
module Wrappers {

  /** A value that may be absent (a Python variable that may still be unbound). */
  datatype Option<+T> = None | Some(value: T)

  /** Either a computed value or the error that ended the computation. */
  datatype Result<+T, +E> = Ok(value: T) | Err(error: E)
}
