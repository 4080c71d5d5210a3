/** Option and Result values used where the Kotlin code returns null or throws. */
module Wrappers {

  datatype Option<+T> = None | Some(value: T)

  /** `Ok` is a normal return; `Err` stands for an exception thrown by the Kotlin code. */
  datatype Result<+T, +E> = Ok(value: T) | Err(error: E)
}
