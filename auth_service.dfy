/**
 * `SejongAuthService`: the earlier service built from the portal client and
 * the two HTML parsers only. It validates the credentials as the engine
 * does and never reaches the academic system.
 */
module AuthService {
  import opened Wrappers
  import opened AuthErrors
  import opened CommonUtil
  import opened Model
  import opened AuthEngine
  import ClassicReadingParser
  import StudentInfoParser

  /** `authenticate`: student information and classic reading, no raw page. */
  function Authenticate(studentId: JString, password: JString, env: Env): (Result<SejongAuthResult>, seq<Call>) {
    if ValidateCredentials(studentId, password).Fail? then (Fail(InvalidInput), [])
    else
      match FetchDhc(env, studentId.value, password.value)
      case Fail(code) => (Fail(code), [PortalFetch])
      case Ok(dhc) => (Ok(SejongAuthResult(true, dhc.studentInfo, dhc.classicReading, None, env.now, None)), [PortalFetch])
  }

  /** `authenticateBasic`: the portal fetch and the user-info parser, nothing else. */
  function AuthenticateBasic(studentId: JString, password: JString, env: Env): (Result<StudentInfo>, seq<Call>) {
    if ValidateCredentials(studentId, password).Fail? then (Fail(InvalidInput), [])
    else
      match FetchHtml(env, studentId.value, password.value)
      case Fail(code) => (Fail(code), [PortalFetch])
      case Ok(html) => (StudentInfoParser.Parse(env.readHtml(html)), [PortalFetch])
  }

  /** `authenticateWithRawHtml`: as `authenticate`, with the fetched page kept. */
  function AuthenticateWithRawHtml(studentId: JString, password: JString, env: Env): (Result<SejongAuthResult>, seq<Call>) {
    if ValidateCredentials(studentId, password).Fail? then (Fail(InvalidInput), [])
    else
      match FetchDhc(env, studentId.value, password.value)
      case Fail(code) => (Fail(code), [PortalFetch])
      case Ok(dhc) =>
        (Ok(SejongAuthResult(true, dhc.studentInfo, dhc.classicReading, None, env.now, Some(dhc.html))), [PortalFetch])
  }

  /**
   * Each operation turns down a null or blank student id or password with
   * INVALID_INPUT and calls nothing; otherwise it calls the portal client
   * once and never the SIS client.
   */
  lemma ValidatesBeforeFetching(studentId: JString, password: JString, env: Env)
    ensures !HasText(studentId) || !HasText(password) ==>
      && Authenticate(studentId, password, env) == (Fail(InvalidInput), [])
      && AuthenticateBasic(studentId, password, env) == (Fail(InvalidInput), [])
      && AuthenticateWithRawHtml(studentId, password, env) == (Fail(InvalidInput), [])
    ensures HasText(studentId) && HasText(password) ==>
      && Authenticate(studentId, password, env).1 == [PortalFetch]
      && AuthenticateBasic(studentId, password, env).1 == [PortalFetch]
      && AuthenticateWithRawHtml(studentId, password, env).1 == [PortalFetch]
  {
  }

  /**
   * `authenticate` fails exactly when the fetch or one of the parsers fails,
   * with that code; otherwise it returns `success = true` with both parsed
   * parts and leaves the raw page and the contact information unset.
   */
  lemma AuthenticateOutcome(studentId: JString, password: JString, env: Env)
    requires HasText(studentId) && HasText(password)
    ensures var r := Authenticate(studentId, password, env).0;
      var dhc := FetchDhc(env, studentId.value, password.value);
      && (r.Ok? <==> dhc.Ok?)
      && (dhc.Fail? ==> r == Fail(dhc.code))
      && (dhc.Ok? ==> r.value == SejongAuthResult(true, dhc.value.studentInfo, dhc.value.classicReading, None, env.now, None))
  {
  }

  /**
   * `authenticateBasic` runs no classic-reading parse: its result is the
   * fetch followed by the user-info parser alone. It agrees with
   * `authenticate` on the student information, and since the classic-reading
   * parser fails only on a page that cannot be read at all, which the
   * user-info parser rejects too, the two succeed together.
   */
  lemma BasicSkipsClassicReading(studentId: JString, password: JString, env: Env)
    requires HasText(studentId) && HasText(password)
    ensures var b := AuthenticateBasic(studentId, password, env).0;
      var html := FetchHtml(env, studentId.value, password.value);
      && (html.Fail? ==> b == Fail(html.code))
      && (html.Ok? ==> b == StudentInfoParser.Parse(env.readHtml(html.value)))
    ensures var b := AuthenticateBasic(studentId, password, env).0;
      var r := Authenticate(studentId, password, env).0;
      && (b.Ok? <==> r.Ok?)
      && (r.Ok? ==> b.value == r.value.studentInfo)
  {
    var html := FetchHtml(env, studentId.value, password.value);
    if html.Ok? {
      var dom := env.readHtml(html.value);
      ClassicReadingParser.ParseFailure(dom);
      StudentInfoParser.ParseFailure(dom);
    }
  }

  /** `authenticateWithRawHtml` carries exactly the fetched page; `authenticate` leaves it unset and is otherwise the same. */
  lemma RawHtmlIsFetchedPage(studentId: JString, password: JString, env: Env)
    ensures var r := AuthenticateWithRawHtml(studentId, password, env).0;
      r.Ok? ==> r.value.rawHtml == Some(FetchHtml(env, studentId.value, password.value).value)
    ensures var r, plain := AuthenticateWithRawHtml(studentId, password, env), Authenticate(studentId, password, env);
      && r.1 == plain.1 && (r.0.Ok? <==> plain.0.Ok?)
      && (plain.0.Ok? ==> plain.0.value.rawHtml.None? && plain.0.value == r.0.value.(rawHtml := None))
  {
  }
}
