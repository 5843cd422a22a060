/**
 * `SuhSejongAuthEngine`: credential validation, then the portal (DHC) side,
 * the academic-system (SIS) side, or both. Each operation yields its result
 * or the error code it throws, and the clients it called, in order.
 */
module AuthEngine {
  import opened Wrappers
  import opened AuthErrors
  import opened CommonUtil
  import opened Model
  import opened AuthProperties
  import opened HtmlDocument
  import PortalClient
  import SisClient
  import SisParser
  import StudentInfoParser
  import ClassicReadingParser

  /** A client run the engine starts. */
  datatype Call = PortalFetch | SisFetch

  /**
   * Everything outside the engine: the settings both clients are built from,
   * how the two hosts answer, how Jsoup and Jackson read the texts they get,
   * and the instant `LocalDateTime.now()` returns.
   */
  datatype Env = Env(
    props: SejongAuthProperties,
    portal: PortalClient.PortalNetwork,
    sis: SisClient.SisNetwork,
    readHtml: string -> Dom,
    readJson: string -> SisParser.JsonTree,
    now: Instant)

  /** `validateCredentials`: a null or blank student id, then a null or blank password, is INVALID_INPUT. */
  function ValidateCredentials(studentId: JString, password: JString): (r: Result<()>)
    ensures r.Ok? <==> HasText(studentId) && HasText(password)
    ensures r.Fail? ==> r.code == InvalidInput
  {
    if IsBlank(studentId) then Fail(InvalidInput)
    else if IsBlank(password) then Fail(InvalidInput)
    else Ok(())
  }

  /** What the DHC side yields: the status page and its two parses. */
  datatype DhcData = DhcData(html: string, studentInfo: StudentInfo, classicReading: ClassicReading)

  /** What the SIS side yields: the user-info JSON, its student part and its contact part. */
  datatype SisData = SisData(json: string, studentInfo: StudentInfo, contactInfo: ContactInfo)

  function FetchHtml(env: Env, studentId: string, password: string): Result<string> {
    PortalClient.AuthenticateAndFetchHtml(env.props, studentId, password, env.portal).0
  }

  function FetchJson(env: Env, studentId: string, password: string): Result<string> {
    SisClient.AuthenticateAndFetchJson(env.props, studentId, password, env.sis).0
  }

  /** The portal fetch, then the user-info parser, then the classic-reading parser; the first failure stops it. */
  function FetchDhc(env: Env, studentId: string, password: string): Result<DhcData> {
    var html :- FetchHtml(env, studentId, password);
    var studentInfo :- StudentInfoParser.Parse(env.readHtml(html));
    var classicReading :- ClassicReadingParser.Parse(env.readHtml(html));
    Ok(DhcData(html, studentInfo, classicReading))
  }

  /** The SIS fetch, then `parseStudentInfo`, then `parseContactInfo`. */
  function FetchSis(env: Env, studentId: string, password: string): Result<SisData> {
    var json :- FetchJson(env, studentId, password);
    var studentInfo :- SisParser.ParseStudentInfo(env.readJson(json));
    var contactInfo :- SisParser.ParseContactInfo(env.readJson(json));
    Ok(SisData(json, studentInfo, contactInfo))
  }

  /** The contact lookup of `authenticate`: the SIS fetch, then `parseContactInfo`. */
  function FetchContact(env: Env, studentId: string, password: string): Result<ContactInfo> {
    var json :- FetchJson(env, studentId, password);
    SisParser.ParseContactInfo(env.readJson(json))
  }

  /**
   * `authenticate`: the DHC side must succeed; the SIS side is then tried,
   * and any failure of it leaves the contact information null.
   */
  function Authenticate(studentId: JString, password: JString, env: Env): (Result<SejongAuthResult>, seq<Call>) {
    if ValidateCredentials(studentId, password).Fail? then (Fail(InvalidInput), [])
    else
      match FetchDhc(env, studentId.value, password.value)
      case Fail(code) => (Fail(code), [PortalFetch])
      case Ok(dhc) =>
        var contact := FetchContact(env, studentId.value, password.value);
        var contactInfo := if contact.Ok? then Some(contact.value) else None;
        (Ok(SejongAuthResult(true, dhc.studentInfo, dhc.classicReading, contactInfo, env.now, None)),
         [PortalFetch, SisFetch])
  }

  /** `authenticateWithDHC` (`raw` false) and `authenticateWithDHCRaw` (`raw` true). */
  function AuthenticateDhc(studentId: JString, password: JString, env: Env, raw: bool)
    : (Result<SejongDhcAuthResult>, seq<Call>)
  {
    if ValidateCredentials(studentId, password).Fail? then (Fail(InvalidInput), [])
    else
      match FetchDhc(env, studentId.value, password.value)
      case Fail(code) => (Fail(code), [PortalFetch])
      case Ok(dhc) =>
        (Ok(SejongDhcAuthResult(true, dhc.studentInfo, dhc.classicReading, env.now,
                                if raw then Some(dhc.html) else None)),
         [PortalFetch])
  }

  /** `authenticateWithSIS` (`raw` false) and `authenticateWithSISRaw` (`raw` true): every SIS failure propagates. */
  function AuthenticateSis(studentId: JString, password: JString, env: Env, raw: bool)
    : (Result<SejongSisAuthResult>, seq<Call>)
  {
    if ValidateCredentials(studentId, password).Fail? then (Fail(InvalidInput), [])
    else
      match FetchSis(env, studentId.value, password.value)
      case Fail(code) => (Fail(code), [SisFetch])
      case Ok(sis) =>
        (Ok(SejongSisAuthResult(true, sis.studentInfo, sis.contactInfo, env.now,
                                if raw then Some(sis.json) else None)),
         [SisFetch])
  }

  function AuthenticateWithDhc(studentId: JString, password: JString, env: Env): (Result<SejongDhcAuthResult>, seq<Call>) {
    AuthenticateDhc(studentId, password, env, false)
  }

  function AuthenticateWithDhcRaw(studentId: JString, password: JString, env: Env): (Result<SejongDhcAuthResult>, seq<Call>) {
    AuthenticateDhc(studentId, password, env, true)
  }

  function AuthenticateWithSis(studentId: JString, password: JString, env: Env): (Result<SejongSisAuthResult>, seq<Call>) {
    AuthenticateSis(studentId, password, env, false)
  }

  function AuthenticateWithSisRaw(studentId: JString, password: JString, env: Env): (Result<SejongSisAuthResult>, seq<Call>) {
    AuthenticateSis(studentId, password, env, true)
  }

  // ---------------------------------------------------------------------
  // Properties

  /**
   * Every operation turns down a null or blank student id or password with
   * INVALID_INPUT before any client is called; valid credentials always
   * reach a client.
   */
  lemma InvalidInputBeforeAnyCall(studentId: JString, password: JString, env: Env, raw: bool)
    ensures !HasText(studentId) || !HasText(password) ==>
      && Authenticate(studentId, password, env) == (Fail(InvalidInput), [])
      && AuthenticateDhc(studentId, password, env, raw) == (Fail(InvalidInput), [])
      && AuthenticateSis(studentId, password, env, raw) == (Fail(InvalidInput), [])
    ensures HasText(studentId) && HasText(password) ==>
      && Authenticate(studentId, password, env).1 != []
      && AuthenticateDhc(studentId, password, env, raw).1 == [PortalFetch]
      && AuthenticateSis(studentId, password, env, raw).1 == [SisFetch]
  {
  }

  /**
   * In `authenticate`, a failure of the portal client or of either HTML
   * parser is the result, unchanged, and the SIS client is never called.
   */
  lemma PrimarySourceFatal(studentId: JString, password: JString, env: Env)
    requires HasText(studentId) && HasText(password)
    requires FetchDhc(env, studentId.value, password.value).Fail?
    ensures Authenticate(studentId, password, env) ==
      (Fail(FetchDhc(env, studentId.value, password.value).code), [PortalFetch])
  {
  }

  /**
   * Once the DHC side has succeeded, `authenticate` succeeds whatever the SIS
   * side does: a SIS failure only leaves the contact information null, and
   * the student information always comes from the HTML page.
   */
  lemma SecondarySourceTolerated(studentId: JString, password: JString, env: Env)
    requires HasText(studentId) && HasText(password)
    requires FetchDhc(env, studentId.value, password.value).Ok?
    ensures var (r, calls) := Authenticate(studentId, password, env);
      var dhc := FetchDhc(env, studentId.value, password.value).value;
      var contact := FetchContact(env, studentId.value, password.value);
      && r.Ok? && r.value.success
      && calls == [PortalFetch, SisFetch]
      && r.value.studentInfo == dhc.studentInfo
      && r.value.classicReading == dhc.classicReading
      && (r.value.contactInfo.None? <==> contact.Fail?)
      && (contact.Ok? ==> r.value.contactInfo == Some(contact.value))
      && r.value.rawHtml.None?
  {
  }

  /** `authenticate` and `authenticateWithDHC` succeed together and agree on the student and reading parts. */
  lemma MergedAgreesWithDhc(studentId: JString, password: JString, env: Env)
    ensures var r := Authenticate(studentId, password, env).0;
      var d := AuthenticateWithDhc(studentId, password, env).0;
      && (r.Ok? <==> d.Ok?)
      && (r.Fail? ==> r.code == d.code)
      && (r.Ok? ==> r.value.studentInfo == d.value.studentInfo && r.value.classicReading == d.value.classicReading)
  {
  }

  /** The SIS variants do not swallow a SIS failure: it is the result, unchanged. */
  lemma SisFailuresPropagate(studentId: JString, password: JString, env: Env, raw: bool)
    requires HasText(studentId) && HasText(password)
    ensures var r := AuthenticateSis(studentId, password, env, raw).0;
      var sis := FetchSis(env, studentId.value, password.value);
      && (r.Ok? <==> sis.Ok?)
      && (sis.Fail? ==> r == Fail(sis.code))
  {
  }

  /** The DHC variants never call the SIS client, and the SIS variants never call the portal client. */
  lemma VariantsCallOneClient(studentId: JString, password: JString, env: Env, raw: bool)
    ensures SisFetch !in AuthenticateDhc(studentId, password, env, raw).1
    ensures PortalFetch !in AuthenticateSis(studentId, password, env, raw).1
  {
  }

  /**
   * Every result returned has `success = true`; a `Raw` variant carries
   * exactly the fetched page or JSON, the other variants leave that field null.
   */
  lemma ResultsCarry(studentId: JString, password: JString, env: Env, raw: bool)
    ensures var r := Authenticate(studentId, password, env).0;
      r.Ok? ==> r.value.success && r.value.rawHtml.None? && r.value.authenticatedAt == env.now
    ensures var r := AuthenticateDhc(studentId, password, env, raw).0;
      r.Ok? ==> (r.value.success && r.value.authenticatedAt == env.now
                 && r.value.rawHtml == (if raw then Some(FetchHtml(env, studentId.value, password.value).value) else None))
    ensures var r := AuthenticateSis(studentId, password, env, raw).0;
      r.Ok? ==> (r.value.success && r.value.authenticatedAt == env.now
                 && r.value.rawJson == (if raw then Some(FetchJson(env, studentId.value, password.value).value) else None))
  {
    AuthenticateCarries(studentId, password, env);
    DhcCarries(studentId, password, env, raw);
    SisCarries(studentId, password, env, raw);
  }

  /** The three parts of `ResultsCarry`, one operation each. */
  lemma AuthenticateCarries(studentId: JString, password: JString, env: Env)
    ensures var r := Authenticate(studentId, password, env).0;
      r.Ok? ==> r.value.success && r.value.rawHtml.None? && r.value.authenticatedAt == env.now
  {
  }

  lemma DhcCarries(studentId: JString, password: JString, env: Env, raw: bool)
    ensures var r := AuthenticateDhc(studentId, password, env, raw).0;
      r.Ok? ==> (r.value.success && r.value.authenticatedAt == env.now
                 && r.value.rawHtml == (if raw then Some(FetchHtml(env, studentId.value, password.value).value) else None))
  {
  }

  lemma SisCarries(studentId: JString, password: JString, env: Env, raw: bool)
    ensures var r := AuthenticateSis(studentId, password, env, raw).0;
      r.Ok? ==> (r.value.success && r.value.authenticatedAt == env.now
                 && r.value.rawJson == (if raw then Some(FetchJson(env, studentId.value, password.value).value) else None))
  {
  }

  /** A raw variant differs from its plain one only in the raw field. */
  lemma RawOnlyAddsText(studentId: JString, password: JString, env: Env)
    ensures var plain, raw := AuthenticateWithDhc(studentId, password, env), AuthenticateWithDhcRaw(studentId, password, env);
      && plain.1 == raw.1 && (plain.0.Ok? <==> raw.0.Ok?)
      && (plain.0.Ok? ==> plain.0.value == raw.0.value.(rawHtml := None))
    ensures var plain, raw := AuthenticateWithSis(studentId, password, env), AuthenticateWithSisRaw(studentId, password, env);
      && plain.1 == raw.1 && (plain.0.Ok? <==> raw.0.Ok?)
      && (plain.0.Ok? ==> plain.0.value == raw.0.value.(rawJson := None))
  {
  }

  /**
   * `authenticate` fails only with INVALID_INPUT, PARSE_ERROR, or one of the
   * codes the portal client raises.
   */
  lemma AuthenticateFailureCodes(studentId: JString, password: JString, env: Env)
    ensures var r := Authenticate(studentId, password, env).0;
      r.Fail? ==> r.code in {InvalidInput, ParseError, SslConfigurationError, ConnectionTimeout, ConnectionFailed,
                             SessionError, AuthenticationFailed, DataFetchFailed}
  {
    if HasText(studentId) && HasText(password) {
      PortalClient.FailureCodes(env.props, studentId.value, password.value, env.portal);
    }
  }
}
