/** Option and Result types shared by the crossword and tic-tac-toe models. */
module Wrappers {

  /** Python's `None` versus a present value. */
  datatype Option<+T> = None | Some(value: T)

  /** A value, or the exception the source would raise instead of returning. */
  datatype Result<+T, +E> = Success(value: T) | Failure(error: E)
}
