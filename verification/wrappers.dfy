/** Option and Result values for the engine's "not found" and error outcomes. */
module Wrappers {

  /** A possibly absent value; `None` stands for Go's `nil` slice result. */
  datatype Option<+T> = None | Some(value: T)

  /** Either a value or the error that stopped the computation. */
  datatype Result<+R, +E> = Success(value: R) | Failure(error: E)
}
