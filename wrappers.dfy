/** Failure-carrying results: the program's `None` sentinel and its raised errors. */
module Wrappers {

  /** A value, or the `None` the program returns when it cannot produce one. */
  datatype Option<+T> = None | Some(value: T)

  /** A value, or the error the program raises instead of returning one. */
  datatype Result<+T, +E> = Ok(value: T) | Err(error: E)
}
