/** The optional and error-carrying values the model uses where the program relies on
    `None` or stops with a message. */
module Wrappers {
  datatype Option<+T> = None | Some(value: T)

  datatype Result<+R, +E> = Success(value: R) | Failure(error: E)
}
