/** Option and Result, the failure-carrying values used throughout the model. */
module Wrappers {

  datatype Option<+T> = None | Some(value: T)

  datatype Result<+T, +E> = Ok(value: T) | Err(error: E)
}

/** Octets, as read from a file or produced by a text encoder. */
module Bytes {

  type byte = x: int | 0 <= x < 256
}
