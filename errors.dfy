/** Failure-carrying values shared by every module of the driver model.
    Each constructor of Error stands for the .NET exception class the driver throws;
    the string it carries is the part of the message (or parameter name) the model keeps. */
module Errors {

  /** A reference that may be null. */
  datatype Option<+T> = None | Some(value: T) {
    function GetOr(default: T): T {
      match this
      case Some(v) => v
      case None => default
    }
  }

  datatype Error =
    | ArgumentError(paramName: string)          // System.ArgumentException
    | ArgumentNull(paramName: string)           // System.ArgumentNullException
    | ArgumentOutOfRange(paramName: string)     // System.ArgumentOutOfRangeException
    | InvalidOperation(message: string)         // System.InvalidOperationException
    | NotSupported(message: string)             // System.NotSupportedException
    | IndexOutOfRange                           // System.IndexOutOfRangeException
    | ServerError(serverText: string, query: string)  // ClickHouseServerException.FromServerResponse
    | TransportError                            // whatever HttpClient.SendAsync throws

  /** The value an operation returns, or the exception it throws. */
  datatype Result<+T> = Ok(value: T) | Err(error: Error) {
    predicate IsFailure() { Err? }

    function PropagateFailure<U>(): Result<U>
      requires Err?
    {
      Err(error)
    }

    function Extract(): T
      requires Ok?
    {
      value
    }
  }

  /** Completion of an operation that returns nothing. */
  datatype Outcome = Pass | Fail(error: Error)
}
