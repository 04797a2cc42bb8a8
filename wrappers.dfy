/** Optional values and fallible results, as used by the IRI-reference buffer. */
module Wrappers {

  datatype Option<+T> = None | Some(value: T)

  datatype Result<+T, +E> = Ok(value: T) | Err(error: E)

  /** The crate's single error kind. */
  datatype Error = Invalid
}
