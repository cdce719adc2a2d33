/** Option and Result, the two Rust standard types the modelled code returns. */
module Wrappers {

  /** Rust's `Option<T>`. */
  datatype Option<+T> = None | Some(value: T)

  /** An operating-system error as carried by `std::io::Error`; only its raw code is kept. */
  datatype IoError = IoError(code: int)

  /** Rust's `Result<T, E>` with the error type fixed to an I/O error (what `anyhow::Result` wraps here). */
  datatype Result<+T> = Ok(value: T) | Err(error: IoError)
}
