/** Option and Result types for the values the photo generator may lack
    and the runs that may abort. */
module Wrappers {

  datatype Option<+T> = None | Some(value: T)

  datatype Result<+T, +E> = Ok(value: T) | Err(error: E)
}
