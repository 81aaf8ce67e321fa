/** Failure-carrying values used across the model: an absent JavaScript value
    or a thrown error becomes None / Err instead of a precondition. */
module Wrappers {

  datatype Option<+T> = None | Some(value: T)

  datatype Result<+T, +E> = Ok(value: T) | Err(error: E)
}
