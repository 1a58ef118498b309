/** Option and Result, the two failure-carrying shapes the model uses for
    Rust's `Option<T>` and for `Result<T, E>`, `panic!` and `exit(1)`. */
module Wrappers {

  datatype Option<+T> = None | Some(value: T) {
    function GetOr(default: T): T {
      match this
      case Some(v) => v
      case None => default
    }
  }

  datatype Result<+T, +E> = Ok(value: T) | Err(error: E)
}
