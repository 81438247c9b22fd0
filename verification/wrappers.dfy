/** The two sum types the model uses: `Option` stands for a C pointer that may be
    NULL, `Result` for an outcome that either hands back a value or ends the
    process. Neither is used with `:-`. */
module Wrappers {

  /** A value that may be absent (a NULL pointer in the C source). */
  datatype Option<+T> = None | Some(value: T)

  /** Either a value or the reason there is none. */
  datatype Result<+R, +E> = Success(value: R) | Failure(error: E)
}
