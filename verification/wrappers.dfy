/** Failure-carrying datatypes shared by the other modules: `Option` for the
    source's `None`-or-value returns and `Result` for its error exits. */
module Wrappers {

  /** A value that may be absent, as Python's `None` or a value. */
  datatype Option<+T> = None | Some(value: T)

  /** Either a value or the error that stopped the computation. */
  datatype Result<+R, +E> = Success(value: R) | Failure(error: E)
}
