/** Option and Result values used where the C# code returns null or throws. */
module Wrappers {

  /** A value that may be absent; `None` stands for a C# `null` string. */
  datatype Option<+T> = None | Some(value: T)

  /** Either a value or the error condition that the C# code raises as an exception. */
  datatype Result<+R, +E> = Success(value: R) | Failure(error: E)
}
