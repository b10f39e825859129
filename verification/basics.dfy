/** Optional values and results shared by the rest of the model. */
module Basics {

  /** A value that may be missing; a Lex slot the user has not filled is `None`. */
  datatype Option<+T> = None | Some(value: T)

  /** The outcome of an operation that may raise: `Failure` stands for the exception. */
  datatype Result<+R, +E> = Success(value: R) | Failure(error: E)
}
