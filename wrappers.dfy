/** Option and Result, the shapes Rust's `Option<T>` and the panicking paths of the
    manifest parsers take in this model. */
module Wrappers {

  datatype Option<+T> = None | Some(value: T)

  /** `Failure` stands for a Rust `panic!`/`unwrap` that aborts work on one manifest. */
  datatype Result<+T, +E> = Success(value: T) | Failure(error: E)
}
