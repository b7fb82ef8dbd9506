/** Failure-carrying values shared by every stage of the pipeline. */
module Wrappers {

  /** A value that may be absent: the `None` a stage returns when it gives up. */
  datatype Option<+T> = None | Some(value: T)

  /** A stage result that either succeeds or names why it stopped. */
  datatype Result<+R, +E> = Ok(value: R) | Err(error: E)
}
