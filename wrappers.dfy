/** Failure-compatible result types used by the cluster's operations. */
module Wrappers {

  /** An optional value: the stand-in for a Java `null` result. */
  datatype Option<+T> = None | Some(value: T)

  /** A value or the error the operation reports instead of it. */
  datatype Result<+R, +E> = Ok(value: R) | Err(error: E)
}
