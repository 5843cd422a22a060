/**
 * `SejongSisClient.authenticateAndFetchJson`: portal login (retried) with a
 * redirect to the academic information system, its SSO page, then the
 * `initUserInfo.do` API, stopping at the first failure; and the `addParam`
 * query value that API call carries.
 */
module SisClient {
  import opened Wrappers
  import opened AuthErrors
  import opened Http
  import opened AuthProperties
  import Utf8
  import FormUrlEncoding
  import Base64

  const PORTAL_LOGIN_URL := "https://portal.sejong.ac.kr/jsp/login/login_action.jsp"
  const SJPT_SSO_URL := "https://sjpt.sejong.ac.kr/main/view/Login/doSsoLogin.do?p="
  const SJPT_INIT_USER_INFO_URL := "https://sjpt.sejong.ac.kr/main/sys/UserInfo/initUserInfo.do"

  /** The browser's first-call context: three empty run fields. */
  const EMPTY_CONTEXT := "{\"_runIntgUsrNo\":\"\",\"_runPgLoginDt\":\"\",\"_runningSejong\":\"\"}"

  /** Form-URL-encode the JSON, then Base64 its UTF-8 bytes. */
  function EncodeAddParam(context: string): string {
    Base64.Encode(Utf8.Encode(FormUrlEncoding.Encode(context)))
  }

  /** `generateEmptyAddParam`. */
  function GenerateEmptyAddParam(): string {
    EncodeAddParam(EMPTY_CONTEXT)
  }

  /** The three decoding steps in reverse order: what a server reads out of `addParam`. */
  function DecodeAddParam(p: string): Option<string> {
    match Base64.Decode(p)
    case None => None
    case Some(bytes) =>
      match Utf8.Decode(bytes)
      case None => None
      case Some(form) => FormUrlEncoding.Decode(form)
  }

  /** `addParam` carries its JSON losslessly, for every context string. */
  lemma AddParamRoundTrip(context: string)
    ensures DecodeAddParam(EncodeAddParam(context)) == Some(context)
  {
    var form := FormUrlEncoding.Encode(context);
    Base64.DecodeEncode(Utf8.Encode(form));
    Utf8.DecodeEncode(form);
    FormUrlEncoding.DecodeEncode(context);
  }

  /** The fixed value the client sends decodes to the empty context. */
  lemma EmptyAddParamCarriesEmptyContext()
    ensures DecodeAddParam(GenerateEmptyAddParam()) == Some(EMPTY_CONTEXT)
  {
    AddParamRoundTrip(EMPTY_CONTEXT);
  }

  /**
   * The form-encoded JSON is ASCII and free of raw JSON punctuation, so its
   * UTF-8 bytes are its characters, and the Base64 text is 4·⌈n/3⌉ long for
   * its n characters, using the 64-symbol alphabet with `=` only at the end.
   */
  lemma AddParamShape(context: string)
    ensures var form := FormUrlEncoding.Encode(context);
      var p := EncodeAddParam(context);
      && (forall i | 0 <= i < |form| :: form[i] !in "{}\":,")
      && |p| == 4 * ((|form| + 2) / 3)
      && (forall i | 0 <= i < |p| :: Base64.IsSymbol(p[i]) || (p[i] == '=' && i >= |p| - 2))
  {
    FormUrlEncoding.EncodedAlphabet(context);
    EncodedFormShape(FormUrlEncoding.Encode(context));
  }

  /** The Base64 of the UTF-8 bytes of any text in the form-encoding alphabet. */
  lemma EncodedFormShape(form: string)
    requires forall i | 0 <= i < |form| :: FormUrlEncoding.IsEncodedChar(form[i])
    ensures forall i | 0 <= i < |form| :: form[i] !in "{}\":,"
    ensures var p := Base64.Encode(Utf8.Encode(form));
      && |p| == 4 * ((|form| + 2) / 3)
      && (forall i | 0 <= i < |p| :: Base64.IsSymbol(p[i]) || (p[i] == '=' && i >= |p| - 2))
  {
    FormChars(form);
    var bytes := Utf8.Encode(form);
    Utf8.EncodeAscii(form);
    assert |bytes| == |form|;
    Base64.EncodeAlphabet(bytes);
  }

  lemma FormChars(form: string)
    requires forall i | 0 <= i < |form| :: FormUrlEncoding.IsEncodedChar(form[i])
    ensures forall i | 0 <= i < |form| :: form[i] !in "{}\":," && form[i] as int < 0x80
  {
  }

  /** How the two hosts would answer each call of one run. */
  datatype SisNetwork = SisNetwork(
    builderThrows: bool,
    login: nat -> Attempt,
    sso: Attempt,
    userInfo: Attempt)

  /** The login form; `rtUrl` sends the session on to the academic system's SSO page. */
  function LoginRequest(studentId: string, password: string): Request {
    FormPost(PORTAL_LOGIN_URL,
      [("mainLogin", "N"), ("rtUrl", "sjpt.sejong.ac.kr/main/view/Login/doSsoLogin.do?p="),
       ("id", studentId), ("password", password)])
  }

  /** The `initUserInfo.do` call: body `{}`, with `addParam` built from the empty context. */
  function UserInfoRequest(): Request {
    JsonPost(SJPT_INIT_USER_INFO_URL, EMPTY_CONTEXT, "{}")
  }

  /** The URL a JSON post goes to, `addParam` included; for the user-info call, `generateEmptyAddParam()`. */
  function PostUrl(r: Request): string
    requires r.JsonPost?
  {
    r.url + "?addParam=" + EncodeAddParam(r.addParamContext)
  }

  /** The whole run: the JSON returned or the error thrown, and the requests sent, in order. */
  function AuthenticateAndFetchJson(props: SejongAuthProperties, studentId: string, password: string,
                                    net: SisNetwork): (Result<string>, seq<Request>)
  {
    if net.builderThrows then (Fail(SslConfigurationError), [])
    else
      var (login, calls) := Retry(net.login, props.maxRetry);
      var sent := Repeat(LoginRequest(studentId, password), calls);
      if login.Threw? then (Catch<string>(Threw(login.thrown)), sent)
      else
        var sent := sent + [Get(SJPT_SSO_URL)];
        var sso := SsoStep(net.sso);
        if sso.Threw? then (Catch<string>(Threw(sso.thrown)), sent)
        else (Catch(BodyStep(net.userInfo)), sent + [UserInfoRequest()])
  }

  /**
   * The login step keeps the retry contract: all timeouts within `maxRetry`
   * tries give CONNECTION_TIMEOUT after exactly `maxRetry` login posts, and
   * running out on a non-2xx response gives CONNECTION_FAILED; either way
   * nothing else is requested.
   */
  lemma LoginRetryContract(props: SejongAuthProperties, studentId: string, password: string, net: SisNetwork)
    requires !net.builderThrows && props.maxRetry > 0
    requires forall j: nat | j < props.maxRetry :: Retryable(net.login(j))
    ensures var (r, sent) := AuthenticateAndFetchJson(props, studentId, password, net);
      && sent == Repeat(LoginRequest(studentId, password), props.maxRetry as nat)
      && (net.login(props.maxRetry - 1).TimedOut? ==> r == Fail(ConnectionTimeout))
      && (net.login(props.maxRetry - 1).Responded? ==> r == Fail(ConnectionFailed))
  {
    if net.login(props.maxRetry - 1).TimedOut? {
      RetryFromSkips(net.login, props.maxRetry, 0, props.maxRetry - 1);
    } else {
      ExhaustedOnFailure(net.login, props.maxRetry);
    }
  }

  /**
   * Only the login is retried: the run sends some login posts (at most
   * `maxRetry`), then at most one SSO request and at most one user-info call,
   * in that order.
   */
  lemma OnlyLoginRetried(props: SejongAuthProperties, studentId: string, password: string, net: SisNetwork)
    requires !net.builderThrows
    ensures var sent := AuthenticateAndFetchJson(props, studentId, password, net).1;
      var calls := Retry(net.login, props.maxRetry).1;
      && calls <= Max0(props.maxRetry)
      && sent[..calls] == Repeat(LoginRequest(studentId, password), calls)
    ensures var sent := AuthenticateAndFetchJson(props, studentId, password, net).1;
      var (login, calls) := Retry(net.login, props.maxRetry);
      sent[calls..] ==
        if login.Threw? then []
        else if SsoStep(net.sso).Threw? then [Get(SJPT_SSO_URL)]
        else [Get(SJPT_SSO_URL), UserInfoRequest()]
  {
    RetryContract(net.login, props.maxRetry);
    var (login, calls) := Retry(net.login, props.maxRetry);
    var logins := Repeat(LoginRequest(studentId, password), calls);
    var sent := AuthenticateAndFetchJson(props, studentId, password, net).1;
    var tail := if login.Threw? then []
      else if SsoStep(net.sso).Threw? then [Get(SJPT_SSO_URL)]
      else [Get(SJPT_SSO_URL), UserInfoRequest()];
    assert sent == logins + tail;
    assert sent[..calls] == logins;
    assert sent[calls..] == tail;
  }

  /** A non-2xx SSO response is SESSION_ERROR, and the user-info API is never called. */
  lemma SsoFailureStops(props: SejongAuthProperties, studentId: string, password: string, net: SisNetwork)
    requires !net.builderThrows && Retry(net.login, props.maxRetry).0.Returned?
    requires net.sso.Responded? && !IsSuccessful(net.sso.code)
    ensures var (r, sent) := AuthenticateAndFetchJson(props, studentId, password, net);
      r == Fail(SessionError) && UserInfoRequest() !in sent
  {
    var sent := AuthenticateAndFetchJson(props, studentId, password, net).1;
    var calls := Retry(net.login, props.maxRetry).1;
    assert sent == Repeat(LoginRequest(studentId, password), calls) + [Get(SJPT_SSO_URL)];
  }

  /**
   * Once login and SSO have gone through, the user-info API alone decides: 401
   * is AUTHENTICATION_FAILED, 200 with a body returns that JSON verbatim, any
   * other response is DATA_FETCH_FAILED, and an I/O error is CONNECTION_FAILED.
   */
  lemma UserInfoDecides(props: SejongAuthProperties, studentId: string, password: string, net: SisNetwork)
    requires !net.builderThrows && Retry(net.login, props.maxRetry).0.Returned?
    requires SsoStep(net.sso).Returned?
    ensures var r := AuthenticateAndFetchJson(props, studentId, password, net).0;
      var a := net.userInfo;
      && (a.Responded? && a.code == 401 ==> r == Fail(AuthenticationFailed))
      && (r.Ok? <==> a.Responded? && a.code == 200 && a.body.Some?)
      && (r.Ok? ==> r.value == a.body.value)
      && (a.Responded? && a.code != 401 && !(a.code == 200 && a.body.Some?) ==> r == Fail(DataFetchFailed))
      && (!a.Responded? ==> r == Fail(ConnectionFailed))
  {
  }

  /** A failure to build the HTTP client is SSL_CONFIGURATION_ERROR, before any request. */
  lemma BuildFailureSendsNothing(props: SejongAuthProperties, studentId: string, password: string, net: SisNetwork)
    requires net.builderThrows
    ensures AuthenticateAndFetchJson(props, studentId, password, net) == (Fail(SslConfigurationError), [])
  {
  }
}
