/** Failure-carrying result values shared by the other modules. */
module Wrappers {

  /** Either a value or the error that prevented computing it. */
  datatype Result<T, E> = Ok(value: T) | Err(error: E)
}
