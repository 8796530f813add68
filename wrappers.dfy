/** Failure-carrying values: the scripts either return "no value" (Python's None)
    or stop with an uncaught exception, which the model reports as a Fail. */
module Wrappers {

  datatype Option<+T> = None | Some(value: T)

  /** Ok carries the script's result; Fail stands for the exception Python would raise. */
  datatype Result<+T> = Ok(value: T) | Fail(error: string)
}
