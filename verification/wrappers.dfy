/** Wrappers used throughout the contact model:
    `Option` for values a caller may leave out (GraphQL optional arguments,
    an unset configuration entry, a lookup that finds nothing) and `Result`
    for operations that either succeed or raise a user-visible error. */
module Wrappers {

  datatype Option<+T> = None | Some(value: T)

  /** Either the operation's value or the error it raised. */
  datatype Result<+T, +E> = Ok(value: T) | Err(error: E)
}
