/** Option stands for a value the source represents as a possibly-null reference;
    Result for a library call that either produces a value or throws. */
module Wrappers {

  datatype Option<+T> = None | Some(value: T)

  datatype Result<+T, +E> = Ok(value: T) | Err(error: E)
}
