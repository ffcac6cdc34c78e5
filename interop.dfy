/** Interop.Check: turning a Win32 error code into the exception the library throws. */
module Interop {
  import opened Wrappers
  import opened Numerics

  const ERROR_SUCCESS: int32 := 0
  const ERROR_ACCESS_DENIED: int32 := 5
  const ERROR_INVALID_HANDLE: int32 := 6
  const ERROR_SHARING_VIOLATION: int32 := 32
  const ERROR_KEY_DELETED: int32 := 1018
  const ERROR_PRIVILEGE_NOT_HELD: int32 := 1314
  const ERROR_TRANSACTION_ALREADY_ABORTED: int32 := 6704

  /** Check(code): nothing for success, otherwise the exception class for that code. */
  function Check(code: int32): (r: Option<Failure>)
    ensures r.None? <==> code == ERROR_SUCCESS
    ensures r == Some(InvalidOperationException) <==> code == ERROR_TRANSACTION_ALREADY_ABORTED
    ensures r == Some(IOException) <==> code == ERROR_KEY_DELETED || code == ERROR_SHARING_VIOLATION
    ensures r == Some(UnauthorizedAccessException) <==> code == ERROR_ACCESS_DENIED || code == ERROR_PRIVILEGE_NOT_HELD
    ensures r.Some? ==> r.value in {InvalidOperationException, IOException, UnauthorizedAccessException, Win32Exception}
  {
    if code == ERROR_SUCCESS then None
    else if code == ERROR_TRANSACTION_ALREADY_ABORTED then Some(InvalidOperationException)
    else if code == ERROR_KEY_DELETED then Some(IOException)
    else if code == ERROR_ACCESS_DENIED then Some(UnauthorizedAccessException)
    else if code == ERROR_INVALID_HANDLE then Some(Win32Exception)
    else if code == ERROR_SHARING_VIOLATION then Some(IOException)
    else if code == ERROR_PRIVILEGE_NOT_HELD then Some(UnauthorizedAccessException)
    else Some(Win32Exception)
  }

  /** Every code outside the table, and ERROR_INVALID_HANDLE, raises Win32Exception. */
  lemma OtherCodesAreWin32(code: int32)
    requires code !in {ERROR_SUCCESS, ERROR_TRANSACTION_ALREADY_ABORTED, ERROR_KEY_DELETED, ERROR_ACCESS_DENIED,
                       ERROR_SHARING_VIOLATION, ERROR_PRIVILEGE_NOT_HELD}
    ensures Check(code) == Some(Win32Exception)
  {
  }

  /**
   * Check(bool): a true result does nothing; a false one checks the thread's last Win32
   * error, passed in as lastError.
   */
  function CheckResult(ok: bool, lastError: int32): (r: Option<Failure>)
    ensures ok ==> r.None?
    ensures !ok ==> (r.None? <==> lastError == ERROR_SUCCESS)
    ensures !ok ==> r == Check(lastError)
  {
    if ok then None else Check(lastError)
  }
}
