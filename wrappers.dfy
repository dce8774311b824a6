/** Failure-carrying results for the operations that raise in the captioner. */
module Wrappers {

  datatype Result<+T, +E> = Ok(value: T) | Err(error: E)

}
