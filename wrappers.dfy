// Option and Result values used across the model, in place of Rust's
// `Option<T>` and `anyhow::Result<T>`.
module Wrappers {
  datatype Option<T> = None | Some(value: T)

  /** An error carries only its message: the model never inspects it. */
  datatype Result<T> = Ok(value: T) | Err(message: string)
}
