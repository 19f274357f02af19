/** Failure-carrying return values: the model's counterparts of Rust's
    `Option` and `Result`. */
module Wrappers {

  datatype Option<+T> = None | Some(value: T)

  datatype Result<+T, +E> = Success(value: T) | Failure(error: E)

  /** A Rust panic (an `unwrap` on `Err`, an index out of bounds). The
      source never catches one, so the model reports it as a failure value. */
  datatype Panic = Panic(reason: string)
}
