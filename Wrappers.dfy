/** Option and Result, the two shapes the handler's control flow is built from:
    Rust's `Option<T>` (std::env::var, the event's optional detail) and
    `Result<T, E>` (every fallible call followed by `?`). */
module Wrappers {

  datatype Option<+T> = None | Some(value: T)

  datatype Result<+T, +E> = Ok(value: T) | Err(error: E)
}
