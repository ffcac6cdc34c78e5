/** Optional values, and the .NET exception classes the modelled code can raise, as values. */
module Wrappers {

  datatype Option<+T> = None | Some(value: T)

  /** The exception classes thrown by the modelled code (or by the framework calls it makes). */
  datatype Failure =
    | ArgumentException
    | ArgumentNullException
    | InvalidCastException
    | NullReferenceException
    | OverflowException
    | FormatException
    | InvalidOperationException
    | IOException
    | UnauthorizedAccessException
    | Win32Exception
    | GeneralException  // a plain System.Exception

  /** A value, or the exception that was thrown instead of returning it. */
  datatype Result<+T> = Ok(value: T) | Err(error: Failure)
}
