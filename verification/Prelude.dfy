/** Datatypes shared by every component of the model. */
module Prelude {

  /** Absent or present value: Rust's `Option`, JavaScript's `undefined`. */
  datatype Option<+T> = None | Some(value: T)

  /** Success or failure: Rust's `Result`. */
  datatype Result<+T, +E> = Ok(value: T) | Err(error: E)

  type Byte = b: int | 0 <= b < 256
}
