/** Option and result types, with the error kinds of the file system. */
module Wrappers {
  datatype Option<+T> = None | Some(value: T)

  datatype Error = AlreadyExists | InvalidInput | NotFound | PolicyViolation | State

  datatype Result<+T> = Ok(value: T) | Err(error: Error)

  function GetOr<T>(o: Option<T>, default: T): T {
    match o
    case Some(x) => x
    case None => default
  }
}
