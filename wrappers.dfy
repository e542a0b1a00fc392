/** Option and Result, used for reads that may fail and for errors that the
    source reports by throwing. */
module Wrappers {

  datatype Option<T> = None | Some(value: T)

  datatype Result<T> = Ok(value: T) | Error
}
