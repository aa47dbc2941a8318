/** Failure-compatible wrappers: `Option` stands for a value that may be
    absent (JavaScript `undefined`), `Result` for a computation that may
    throw. */
module Wrappers {

  datatype Option<+T> = None | Some(value: T)

  datatype Result<+R, +E> = Success(value: R) | Failure(error: E)
}
