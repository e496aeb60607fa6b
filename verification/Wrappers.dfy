/** The two result shapes the models share: an absent-or-present value, and the
    source's `Result` with the error it would return. */
module Wrappers {
  datatype Option<+T> = None | Some(value: T)

  datatype Result<+T, +E> = Ok(value: T) | Err(error: E)
}
