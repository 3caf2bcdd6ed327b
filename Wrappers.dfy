/** The Option and Result datatypes: a value that may be absent (JavaScript's
    `null`/`undefined`) and the outcome of a call that may throw. */
module Wrappers {

  datatype Option<T> = None | Some(value: T)

  datatype Result<T, E> = Ok(value: T) | Err(error: E)
}
