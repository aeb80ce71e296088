// Error codes and result values. Messages and context strings of the source's
// Status objects are not modelled, only the code that a caller can branch on.
module Results {
  datatype Error =
    | InvalidArgument
    | NotFound
    | AlreadyExists
    | OutOfRange
    | ResourceExhausted
    | Unsupported
    | Corruption
    | TypeMismatch
    | Syntax
    | Internal

  datatype Option<+T> = None | Some(value: T)

  datatype Result<+T> = Ok(value: T) | Err(error: Error)

  // The error of a failed result, for a caller with another value type.
  function Forward<T, U>(r: Result<T>): Result<U> {
    match r
    case Err(e) => Err(e)
    case Ok(_) => Err(Internal)
  }
}
