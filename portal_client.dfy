/**
 * `SejongPortalClient.authenticateAndFetchHtml`: portal login (retried), SSO
 * redirect, then the classic-reading status page, stopping at the first
 * failure. The network is an input: what each call would bring.
 */
module PortalClient {
  import opened Wrappers
  import opened AuthErrors
  import opened Http
  import opened AuthProperties

  /** How the portal would answer each call of one run. */
  datatype PortalNetwork = PortalNetwork(
    builderThrows: bool,
    login: nat -> Attempt,
    sso: Attempt,
    statusPage: Attempt)

  /** The login form; `rtUrl` sends the session on to the classic-reading site. */
  function LoginRequest(props: SejongAuthProperties, studentId: string, password: string): Request {
    FormPost(props.portalLoginUrl,
      [("mainLogin", "N"), ("rtUrl", "classic.sejong.ac.kr"), ("id", studentId), ("password", password)])
  }

  /**
   * The whole run: the result `authenticateAndFetchHtml` returns or throws,
   * and the requests it puts on the wire, in order.
   */
  function AuthenticateAndFetchHtml(props: SejongAuthProperties, studentId: string, password: string,
                                    net: PortalNetwork): (Result<string>, seq<Request>)
  {
    if net.builderThrows then (Fail(SslConfigurationError), [])
    else
      var (login, calls) := Retry(net.login, props.maxRetry);
      var sent := Repeat(LoginRequest(props, studentId, password), calls);
      if login.Threw? then (Catch<string>(Threw(login.thrown)), sent)
      else
        var sent := sent + [Get(props.ssoRedirectUrl)];
        var sso := SsoStep(net.sso);
        if sso.Threw? then (Catch<string>(Threw(sso.thrown)), sent)
        else (Catch(BodyStep(net.statusPage)), sent + [Get(props.classicStatusUrl)])
  }

  /** A failure to build the HTTP client is SSL_CONFIGURATION_ERROR, before any request. */
  lemma BuildFailureSendsNothing(props: SejongAuthProperties, studentId: string, password: string,
                                 net: PortalNetwork)
    requires net.builderThrows
    ensures AuthenticateAndFetchHtml(props, studentId, password, net) == (Fail(SslConfigurationError), [])
  {
  }

  /**
   * Only the login is retried: the run sends some login posts (at most
   * `maxRetry`), then at most one SSO request and at most one status-page
   * request, in that order, and the status page only after a successful SSO step.
   */
  lemma OnlyLoginRetried(props: SejongAuthProperties, studentId: string, password: string, net: PortalNetwork)
    requires !net.builderThrows
    ensures var sent := AuthenticateAndFetchHtml(props, studentId, password, net).1;
      var (login, calls) := Retry(net.login, props.maxRetry);
      calls <= Max0(props.maxRetry)
    ensures var sent := AuthenticateAndFetchHtml(props, studentId, password, net).1;
      var (login, calls) := Retry(net.login, props.maxRetry);
      sent[..calls] == Repeat(LoginRequest(props, studentId, password), calls)
    ensures var sent := AuthenticateAndFetchHtml(props, studentId, password, net).1;
      var (login, calls) := Retry(net.login, props.maxRetry);
      sent[calls..] in {[], [Get(props.ssoRedirectUrl)], [Get(props.ssoRedirectUrl), Get(props.classicStatusUrl)]}
    ensures var sent := AuthenticateAndFetchHtml(props, studentId, password, net).1;
      var (login, calls) := Retry(net.login, props.maxRetry);
      (|sent| > calls <==> login.Returned?)
    ensures var sent := AuthenticateAndFetchHtml(props, studentId, password, net).1;
      var (login, calls) := Retry(net.login, props.maxRetry);
      (|sent| == calls + 2 <==> login.Returned? && SsoStep(net.sso).Returned?)
  {
    RetryContract(net.login, props.maxRetry);
    var (login, calls) := Retry(net.login, props.maxRetry);
    var logins := Repeat(LoginRequest(props, studentId, password), calls);
    var sent := AuthenticateAndFetchHtml(props, studentId, password, net).1;
    if login.Returned? {
      if SsoStep(net.sso).Returned? {
        assert sent == logins + [Get(props.ssoRedirectUrl), Get(props.classicStatusUrl)];
        assert sent[calls..] == [Get(props.ssoRedirectUrl), Get(props.classicStatusUrl)];
      } else {
        assert sent == logins + [Get(props.ssoRedirectUrl)];
        assert sent[calls..] == [Get(props.ssoRedirectUrl)];
      }
    } else {
      assert sent == logins;
      assert sent[calls..] == [];
    }
    assert sent[..calls] == logins;
  }

  /**
   * The login response is never inspected beyond `executeWithRetry`: two
   * runs whose login succeeds after the same number of calls give the same
   * result, whatever status and body the login returned.
   */
  lemma LoginResponseIgnored(props: SejongAuthProperties, studentId: string, password: string,
                             net1: PortalNetwork, net2: PortalNetwork)
    requires !net1.builderThrows && !net2.builderThrows
    requires Retry(net1.login, props.maxRetry).0.Returned? && Retry(net2.login, props.maxRetry).0.Returned?
    requires Retry(net1.login, props.maxRetry).1 == Retry(net2.login, props.maxRetry).1
    requires net1.sso == net2.sso && net1.statusPage == net2.statusPage
    ensures AuthenticateAndFetchHtml(props, studentId, password, net1)
         == AuthenticateAndFetchHtml(props, studentId, password, net2)
  {
  }

  /** A non-2xx SSO response is SESSION_ERROR, and the status page is never requested. */
  lemma SsoFailureStops(props: SejongAuthProperties, studentId: string, password: string, net: PortalNetwork)
    requires !net.builderThrows && Retry(net.login, props.maxRetry).0.Returned?
    requires net.sso.Responded? && !IsSuccessful(net.sso.code)
    ensures var (r, sent) := AuthenticateAndFetchHtml(props, studentId, password, net);
      r == Fail(SessionError) && |sent| == Retry(net.login, props.maxRetry).1 + 1
      && sent[|sent| - 1] == Get(props.ssoRedirectUrl)
  {
  }

  /**
   * Once login and SSO have gone through, the status page alone decides: 401
   * is AUTHENTICATION_FAILED whatever the body, 200 with a body returns that
   * body, any other response (other 2xx included) is DATA_FETCH_FAILED, and a
   * timeout or other I/O error is CONNECTION_FAILED.
   */
  lemma StatusPageDecides(props: SejongAuthProperties, studentId: string, password: string, net: PortalNetwork)
    requires !net.builderThrows && Retry(net.login, props.maxRetry).0.Returned?
    requires SsoStep(net.sso).Returned?
    ensures var r := AuthenticateAndFetchHtml(props, studentId, password, net).0;
      var a := net.statusPage;
      && (a.Responded? && a.code == 401 ==> r == Fail(AuthenticationFailed))
      && (r.Ok? <==> a.Responded? && a.code == 200 && a.body.Some?)
      && (r.Ok? ==> r.value == a.body.value)
      && (a.Responded? && a.code != 401 && !(a.code == 200 && a.body.Some?) ==> r == Fail(DataFetchFailed))
      && (!a.Responded? ==> r == Fail(ConnectionFailed))
  {
  }

  /**
   * Error codes the flow raises reach the caller unchanged; an I/O failure
   * outside the retry loop, a timeout included, becomes CONNECTION_FAILED.
   * So the run can only fail with one of these six codes.
   */
  lemma FailureCodes(props: SejongAuthProperties, studentId: string, password: string, net: PortalNetwork)
    ensures var r := AuthenticateAndFetchHtml(props, studentId, password, net).0;
      r.Fail? ==> r.code in {SslConfigurationError, ConnectionTimeout, ConnectionFailed, SessionError,
                             AuthenticationFailed, DataFetchFailed}
    ensures !net.builderThrows && Retry(net.login, props.maxRetry).0.Returned? && net.sso == TimedOut ==>
              AuthenticateAndFetchHtml(props, studentId, password, net).0 == Fail(ConnectionFailed)
  {
    RetryContract(net.login, props.maxRetry);
  }

  /** With the default three tries, a login that times out every time gives CONNECTION_TIMEOUT after three posts. */
  lemma DefaultLoginTimesOut(studentId: string, password: string, net: PortalNetwork)
    requires !net.builderThrows
    requires forall j: nat | j < 3 :: net.login(j) == TimedOut
    ensures var (r, sent) := AuthenticateAndFetchHtml(DEFAULTS, studentId, password, net);
      r == Fail(ConnectionTimeout) && sent == Repeat(LoginRequest(DEFAULTS, studentId, password), 3)
  {
    AllTimeouts(net.login, 3);
  }

  /** A successful run returns the status page body and has sent every request exactly once after the login. */
  lemma SuccessfulRun(props: SejongAuthProperties, studentId: string, password: string, net: PortalNetwork)
    ensures var (r, sent) := AuthenticateAndFetchHtml(props, studentId, password, net);
      r.Ok? ==>
        && !net.builderThrows
        && net.statusPage == Responded(200, Some(r.value))
        && |sent| >= 3
        && sent[0] == LoginRequest(props, studentId, password)
        && sent[|sent| - 2..] == [Get(props.ssoRedirectUrl), Get(props.classicStatusUrl)]
  {
    RetryContract(net.login, props.maxRetry);
  }
}
