/**
 * The result type every AutoConnect operation returns: an error kind and a
 * human-readable message, with the validation guards written as functions.
 */
module Errors {
  import opened Wrappers

  /** The 22 error kinds, in declaration order (SUCCESS is 0). */
  datatype ACError =
    | Success
    | WifiConnectFailed
    | WifiTimeout
    | WifiCredentialsInvalid
    | JsonParseError
    | JsonBufferOverflow
    | FilesystemError
    | FilesystemNotMounted
    | FileNotFound
    | FileReadError
    | FileWriteError
    | MemoryAllocationFailed
    | MemoryInsufficient
    | TimeoutExceeded
    | InvalidParameter
    | InvalidState
    | PortalStartFailed
    | WebserverError
    | DnsServerError
    | CredentialStoreError
    | CredentialLoadError
    | UnknownError

  datatype ACResult = ACResult(error: ACError, message: string)
  {
    /** `explicit operator bool`: the result is truthy only on success. */
    predicate AsBool()
    {
      error == Success
    }

    predicate IsSuccess()
    {
      error == Success
    }

    predicate IsError()
    {
      error != Success
    }

    /** The fixed text of the error kind; the switch's default arm answers for UNKNOWN_ERROR. */
    function ErrorString(): string
    {
      ErrorText(error)
    }
  }

  /** ACResult() with both arguments defaulted. */
  function DefaultResult(): (r: ACResult)
    ensures r.IsSuccess() && r.AsBool() && !r.IsError()
    ensures r.message == ""
  {
    ACResult(Success, "")
  }

  /** ACResult(err) with the message defaulted to the empty string. */
  function Of(err: ACError): (r: ACResult)
    ensures r.error == err && r.message == ""
    ensures r.IsSuccess() <==> err == Success
  {
    ACResult(err, "")
  }

  function ErrorText(e: ACError): string
  {
    match e
    case Success => "Success"
    case WifiConnectFailed => "WiFi connection failed"
    case WifiTimeout => "WiFi connection timeout"
    case WifiCredentialsInvalid => "Invalid WiFi credentials"
    case JsonParseError => "JSON parsing error"
    case JsonBufferOverflow => "JSON buffer overflow"
    case FilesystemError => "Filesystem error"
    case FilesystemNotMounted => "Filesystem not mounted"
    case FileNotFound => "File not found"
    case FileReadError => "File read error"
    case FileWriteError => "File write error"
    case MemoryAllocationFailed => "Memory allocation failed"
    case MemoryInsufficient => "Insufficient memory"
    case TimeoutExceeded => "Timeout exceeded"
    case InvalidParameter => "Invalid parameter"
    case InvalidState => "Invalid state"
    case PortalStartFailed => "Portal start failed"
    case WebserverError => "Web server error"
    case DnsServerError => "DNS server error"
    case CredentialStoreError => "Credential store error"
    case CredentialLoadError => "Credential load error"
    case UnknownError => "Unknown error"
  }

  /** The three truth tests of a result agree: bool and isSuccess coincide, isError negates them. */
  lemma ResultTruthiness(r: ACResult)
    ensures r.AsBool() == r.IsSuccess()
    ensures r.IsError() == !r.IsSuccess()
    ensures r.IsSuccess() <==> r.error == Success
  {
  }

  /** errorString is total and tells the kinds apart: no two kinds share a text. */
  lemma ErrorTextInjective(a: ACError, b: ACError)
    ensures ErrorText(a) == ErrorText(b) ==> a == b
  {
  }

  /**
   * AC_VALIDATE_PARAM(condition, error): None means "continue", Some(r)
   * is the early return; `conditionText` is the stringified condition.
   */
  function ValidateParam(condition: bool, error: ACError, conditionText: string): (r: Option<ACResult>)
    ensures r.None? <==> condition
    ensures r.Some? ==> r.value.error == error
    ensures r.Some? ==> r.value.message == "Parameter validation failed: " + conditionText
  {
    if !condition then Some(ACResult(error, "Parameter validation failed: " + conditionText))
    else None
  }

  /** AC_VALIDATE_PARAM_BOOL(condition): the early return is `false` instead of a result. */
  function ValidateParamBool(condition: bool): (r: Option<bool>)
    ensures r.None? <==> condition
    ensures r.Some? ==> !r.value
  {
    if !condition then Some(false) else None
  }

  /** AC_VALIDATE_NOT_NULL(ptr): a null pointer (None) returns INVALID_PARAMETER. */
  function ValidateNotNull<T>(ptr: Option<T>, conditionText: string): (r: Option<ACResult>)
    ensures r.None? <==> ptr.Some?
    ensures r.Some? ==> r.value.error == InvalidParameter
    ensures r.Some? ==> r.value.message == "Parameter validation failed: " + conditionText
  {
    ValidateParam(ptr.Some?, InvalidParameter, conditionText)
  }

  /** AC_VALIDATE_STRING_LENGTH(str, maxLen): a string of exactly maxLen passes. */
  function ValidateStringLength(str: string, maxLen: nat, conditionText: string): (r: Option<ACResult>)
    ensures r.None? <==> |str| <= maxLen
    ensures r.Some? ==> r.value.error == InvalidParameter
    ensures r.Some? ==> r.value.message == "Parameter validation failed: " + conditionText
  {
    ValidateParam(|str| <= maxLen, InvalidParameter, conditionText)
  }
}
