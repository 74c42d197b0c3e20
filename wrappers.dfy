/** Option and Result, the two failure-carrying shapes the model uses for PHP's
    null results and thrown exceptions. */
module Wrappers {

  datatype Option<+T> = None | Some(value: T)

  datatype Result<+R, +E> = Ok(value: R) | Err(error: E)
}
