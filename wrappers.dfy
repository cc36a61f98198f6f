/** An optional value, and the outcome of an operation that can raise. */
module Wrappers {

  datatype Option<T> = None | Some(value: T)

  /** `Err` stands for a Python exception that the operation lets escape. */
  datatype Result<T, E> = Ok(value: T) | Err(error: E)
}
