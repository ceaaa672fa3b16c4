/** Option and Result, the two failure-carrying shapes the Rust code uses
    (`Option<T>` and `crate::Result<T>` / `std::io::Result<T>`). */
module Wrappers {
  datatype Option<+T> = None | Some(value: T)

  datatype Result<+T, +E> = Ok(value: T) | Err(error: E)
}
