/** Option and Result, the two outcome shapes the model needs: `None` stands
    for Python's `None` return, `Err` for a raised exception. */
module Wrappers {

  datatype Option<+T> = None | Some(value: T)

  datatype Result<+T, +E> = Ok(value: T) | Err(error: E)
}
