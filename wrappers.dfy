/** Failure-carrying result types shared by the decoders. */
module Wrappers {

  datatype Option<T> = None | Some(value: T)

  /** `Err` stands for a Python exception that is not caught and so ends the run. */
  datatype Result<T, E> = Ok(value: T) | Err(error: E)
}
