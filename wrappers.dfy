/** Option and Result, the shapes the Rust code's `Option` and panics take here. */
module Wrappers {
  datatype Option<+T> = None | Some(value: T)

  datatype Result<+T, +E> = Success(value: T) | Failure(error: E)
}
