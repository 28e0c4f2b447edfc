/** Optional values and success-or-failure results, used where the application
    reads a form field that may be absent or calls a collaborator that may fail. */
module Wrappers {

  datatype Option<+T> = None | Some(value: T)

  datatype Result<+R, +E> = Ok(value: R) | Err(error: E)
}
