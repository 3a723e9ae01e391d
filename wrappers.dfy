/** Failure-carrying wrappers shared by the model: `Option` for lookups that may
    miss, `Result` for operations of the source that return `anyhow::Result`. */
module Wrappers {

  datatype Option<+T> = None | Some(value: T)

  datatype Result<+T, +E> = Ok(value: T) | Err(error: E)
}
