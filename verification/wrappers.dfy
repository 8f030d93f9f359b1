/** Result shapes shared by the whole model. */
module Wrappers {

  /** The two-armed result of every fallible catalog operation: `Left` carries
      the error, `Right` the success payload. */
  datatype Either<+L, +R> = Left(error: L) | Right(value: R)

  /** An optional value; `None` marks a random draw stream that ran out
      before the sampling loop that consumes it would have stopped. */
  datatype Option<+T> = None | Some(value: T)
}
