/** Stock result types. */
module Wrappers {
  datatype Option<+T> = None | Some(value: T)

  /** A Go value-or-error return. */
  datatype Result<+T> = Ok(value: T) | Err(message: string)
}
