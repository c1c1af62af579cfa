/** Failure-carrying values used where the Python code returns None or raises. */
module Wrappers {

  datatype Option<+T> = None | Some(value: T)

  /** `Err` carries the message the Python code puts into its exception. */
  datatype Result<+T> = Ok(value: T) | Err(message: string)
}
