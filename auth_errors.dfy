/**
 * The library's error taxonomy (`SejongAuthErrorCode`) and the outcome of an
 * operation that either returns a value or throws a `SejongAuthException`
 * carrying one of those codes.
 */
module AuthErrors {

  datatype ErrorCode =
    | ConnectionFailed
    | ConnectionTimeout
    | InvalidCredentials
    | AuthenticationFailed
    | SessionError
    | InvalidInput
    | DataFetchFailed
    | ParseError
    | SslConfigurationError
  {
    /** The stable code string each constant carries. */
    function Code(): string {
      match this
      case ConnectionFailed => "SEJONG_AUTH_001"
      case ConnectionTimeout => "SEJONG_AUTH_002"
      case InvalidCredentials => "SEJONG_AUTH_003"
      case SessionError => "SEJONG_AUTH_004"
      case DataFetchFailed => "SEJONG_AUTH_005"
      case ParseError => "SEJONG_AUTH_006"
      case SslConfigurationError => "SEJONG_AUTH_007"
      case InvalidInput => "SEJONG_AUTH_008"
      case AuthenticationFailed => "SEJONG_AUTH_009"
    }
  }

  /** Either the returned value or the code of the thrown `SejongAuthException`. */
  datatype Result<+T> = Ok(value: T) | Fail(code: ErrorCode) {

    predicate IsFailure() {
      Fail?
    }

    function PropagateFailure<U>(): Result<U>
      requires Fail?
    {
      Fail(code)
    }

    function Extract(): T
      requires Ok?
    {
      value
    }
  }

  /** Distinct constants carry distinct code strings. */
  lemma CodesAreDistinct(a: ErrorCode, b: ErrorCode)
    ensures a.Code() == b.Code() <==> a == b
  {
  }
}
