/** Option and Result, the shapes the pipeline's "absent" values and raised
    exceptions take in this model. */
module Wrappers {

  datatype Option<+T> = None | Some(value: T)

  /** Success carries a value; Failure carries the exception the Python code raises. */
  datatype Result<+R, +E> = Success(value: R) | Failure(error: E)
}
