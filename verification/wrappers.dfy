/** Failure-carrying datatypes shared by the model: a JavaScript value that may be
    `null`/`undefined` is an `Option`, and a handler step that either yields a value
    or reports a user-facing error is a `Result`. */
module Wrappers {

  datatype Option<+T> = None | Some(value: T)

  datatype Result<+T, +E> = Ok(value: T) | Err(error: E)
}
