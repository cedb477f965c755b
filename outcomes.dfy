/** Optional values and results with an error, standing in for Java's
    `null` returns and thrown exceptions. */
module Outcomes {

  datatype Option<+T> = None | Some(value: T)

  datatype Result<+T, +E> = Ok(value: T) | Err(error: E)
}
