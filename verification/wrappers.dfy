/** Absence and failure values shared by the container models.

    `Option` stands for the source's `T | undefined` returns and for slots
    that were never written; `Result` stands for an operation that either
    completes or raises an error. */
module Wrappers {

  datatype Option<+T> = None | Some(value: T)

  datatype Result<+T, +E> = Ok(value: T) | Err(error: E)
}
