/** Option and Result, used for the model's error paths. */
module Wrappers {

  datatype Option<+T> = None | Some(value: T)

  /** The outcome of an operation that can abort: `Panicked` stands for a Rust
      `panic!`, which the Python binding turns into an exception. */
  datatype Result<+T> = Ok(value: T) | Panicked(message: string)
}
