/** Option and Result, used for lookups that may find nothing and for the
    error responses the handlers return, and the identifiers both
    collections use. */
module Wrappers {

  datatype Option<+T> = None | Some(value: T)

  datatype Result<+R, +E> = Ok(value: R) | Err(error: E)

  /** An ObjectId or other opaque identifier, by its text. */
  type Id = string
}
