/** Failure-carrying values used across the model: an optional value (the
    front-matter fields, a search position) and a success-or-error result
    (loading a file that cannot be read). */
module Wrappers {

  datatype Option<+T> = None | Some(value: T)

  datatype Result<+R, +E> = Success(value: R) | Failure(error: E)
}
