/** Failure-carrying datatypes shared by the model. */
module Wrappers {

  /** A value that may be absent; `None` stands for a Go panic or a missing result. */
  datatype Option<+T> = None | Some(value: T)

  /** Either a computed value or the reason the program stopped (a `log.Fatal`). */
  datatype Result<+T, +E> = Success(value: T) | Failure(error: E)
}
