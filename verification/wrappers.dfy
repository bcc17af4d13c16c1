/** The two failure-carrying shapes the model uses: `Option` for a value that
    may be missing and `Result` for an operation that may fail with an error. */
module Wrappers {

  datatype Option<+T> = None | Some(value: T)

  datatype Result<+R, +E> = Success(value: R) | Failure(error: E)
}
