/** The Option and Result datatypes used throughout the model. */
module Wrappers {

  /** An optional value: a process-environment variable is either unset or holds a string. */
  datatype Option<+T> = None | Some(value: T)

  /** Either a value or an error; the error side models strtonum's `errstr`. */
  datatype Result<+R, +E> = Success(value: R) | Failure(error: E)
}
