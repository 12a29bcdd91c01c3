/** Small datatypes and arithmetic shared by every module of the model. */
module Prelude {

  datatype Option<+T> = None | Some(value: T)

  /** The source's exceptions and error returns, by the code a caller sees. */
  datatype ErrorCode =
    | InvalidArgument
    | NotFound
    | AlreadyExists
    | FailedPrecondition
    | Internal
    | Unavailable

  datatype Result<+T> = Ok(value: T) | Err(error: ErrorCode)

  function Max(a: int, b: int): int {
    if a >= b then a else b
  }

  function Min(a: int, b: int): int {
    if a <= b then a else b
  }
}
