/** Failure-carrying results, standing in for C#'s null references and exceptions. */
module Wrappers {

  /** A value that may be absent: None plays the part of a C# null reference. */
  datatype Option<+T> = None | Some(value: T)

  /** Either a value or the exception the C# code would throw instead. */
  datatype Result<+R, +E> = Success(value: R) | Failure(error: E)

  /** The outcome of a void C# method: it returns normally or throws. */
  datatype Outcome<+E> = Pass | Fail(error: E)
}
