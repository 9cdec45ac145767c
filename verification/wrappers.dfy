/** Optional values (Kotlin's nullable references) and success-or-error results
    (the exceptions the extractor throws). */
module Wrappers {

  datatype Option<+T> = None | Some(value: T)

  datatype Result<+R, +E> = Ok(value: R) | Err(error: E)
}
