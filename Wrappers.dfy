/** Failure-compatible wrappers shared by the other modules. */
module Wrappers {

  /** A value that may be absent (the source's nullable references). */
  datatype Option<+T> = None | Some(value: T) {
    function GetOr(default: T): T {
      match this
      case Some(v) => v
      case None => default
    }
  }

  /** The exceptions the modelled code throws, by .NET / JavaScript type. */
  datatype Exception =
    | InvalidOperation(message: string)
    | Argument(message: string)
    | Format(message: string)
    | IndexOutOfRange
    | UriError

  /** A normal return, or the exception that was thrown instead. */
  datatype Result<+T> = Ok(value: T) | Err(error: Exception) {
    predicate IsFailure() {
      Err?
    }

    function PropagateFailure<U>(): Result<U>
      requires Err?
    {
      Err(error)
    }

    function Extract(): T
      requires Ok?
    {
      value
    }
  }
}
