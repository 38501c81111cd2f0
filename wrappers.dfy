/** Option and Result: the model's replacement for `undefined`/`NaN` and for a
    rejected promise. */
module Wrappers {

  datatype Option<+T> = None | Some(value: T)

  datatype Result<+T, +E> = Ok(value: T) | Err(error: E)
}
