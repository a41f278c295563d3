/** Option and Result values shared by the game-service modules. */
module Wrappers {

  datatype Option<+T> = None | Some(value: T)

  /** The outcome of an operation that either produces a value or is rejected with an error. */
  datatype Result<+T, +E> = Ok(value: T) | Err(error: E)
}
