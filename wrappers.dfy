/// Option, Result and Outcome types standing in for the exceptions the C# code
/// throws: an `Err`/`Fail` carries the message of the exception.
module Wrappers {

  datatype Option<T> = None | Some(value: T)

  datatype Result<T> = Ok(value: T) | Err(error: string)

  /// The result of an operation that returns nothing but may throw.
  datatype Outcome = Pass | Fail(error: string)
}
