/** The optional-value and error-result types the models return where the
    source returns `null`/`undefined` or throws. */
module Wrappers {
  datatype Option<T> = None | Some(value: T)

  datatype Result<T, E> = Ok(value: T) | Err(error: E)
}
