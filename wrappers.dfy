/** Optional values and error-carrying results, standing for Python's `None` and for
    exceptions where the source returns or raises one. */
module Wrappers {

  datatype Option<+T> = None | Some(value: T)

  datatype Result<+T> = Ok(value: T) | Err(message: string)

}
