/** The two failure-carrying datatypes of the model: `Option` for a value
    that may be absent (Python's `None`), `Result` for an operation that may
    raise. */
module Wrappers {

  datatype Option<+T> = None | Some(value: T)

  datatype Result<+T, +E> = Ok(value: T) | Err(error: E)
}
