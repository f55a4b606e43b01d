/** Failure-carrying datatypes used across the model: Kotlin's nullable
    results become Option, and thrown ProcessorExceptions become Result. */
module Wrappers {

  datatype Option<+T> = None | Some(value: T)

  datatype Result<+R, +E> = Ok(value: R) | Err(error: E)
}
