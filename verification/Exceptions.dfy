/** Outcomes of code that can throw. */
module Exceptions {

  datatype Result<+T> = Ok(value: T) | Thrown

  datatype Option<+T> = None | Some(value: T)
}
