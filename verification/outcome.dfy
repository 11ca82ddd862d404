/** Failure-carrying results shared by the modules of this project. */
module Outcome {

  /** A value that may be missing. */
  datatype Option<T> = None | Some(value: T)

  /** Either a value or the error the program raises instead. */
  datatype Result<T, E> = Ok(value: T) | Err(error: E)
}
