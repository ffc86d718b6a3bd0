/** Option and Result, and the Python exceptions the core raises or lets
    through. */
module Wrappers {

  datatype Option<+T> = None | Some(value: T)

  datatype Result<+R, +E> = Ok(value: R) | Err(error: E)

  /** An exception, by class. Only a ValueError's message is kept: it is the
      only message the code looks at. */
  datatype Exception =
    | ValueError(msg: string)
    | AssertionError
    | IndexError
    | NotEnoughShares
    | StopIteration
}
