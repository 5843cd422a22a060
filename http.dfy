/**
 * What the two HTTP clients share: the outcome of one network call, the
 * requests they issue, Java's exception flow out of a step, the SSO and
 * final-request steps, and the bounded retry loop `executeWithRetry`, all of
 * which both clients define identically.
 */
module Http {
  import opened Wrappers
  import opened AuthErrors

  /**
   * The outcome of one `client.newCall(request).execute()`: a response with a
   * status code and a body that may be null, a `SocketTimeoutException`, or
   * any other `IOException`.
   */
  datatype Attempt =
    | Responded(code: int, body: Option<string>)
    | TimedOut
    | OtherIoError

  datatype Response = Response(code: int, body: Option<string>)

  /**
   * A request as issued; headers are not modelled. A `JsonPost` names the
   * JSON context its `addParam` query value encodes rather than the encoded
   * text, which the SIS client defines.
   */
  datatype Request =
    | FormPost(url: string, form: seq<(string, string)>)
    | JsonPost(url: string, addParamContext: string, json: string)
    | Get(url: string)

  /** What a step throws: a `SejongAuthException` with its code, or a raw `IOException`. */
  datatype Thrown = Raised(error: ErrorCode) | IoException

  /** A step either returns a value or throws. */
  datatype Outcome<+T> = Returned(value: T) | Threw(thrown: Thrown) {

    predicate IsFailure() {
      Threw?
    }

    function PropagateFailure<U>(): Outcome<U>
      requires Threw?
    {
      Threw(thrown)
    }

    function Extract(): T
      requires Returned?
    {
      value
    }
  }

  /** OkHttp's `Response.isSuccessful()`. */
  predicate IsSuccessful(code: int) {
    200 <= code && code < 300
  }

  /**
   * The SSO request of either client (`handleSsoRedirect`, `accessSsoPage`):
   * a single call; any non-2xx status is a session error.
   */
  function SsoStep(a: Attempt): (o: Outcome<()>)
    ensures o.Returned? <==> a.Responded? && IsSuccessful(a.code)
    ensures a.Responded? && !IsSuccessful(a.code) ==> o == Threw(Raised(SessionError))
    ensures !a.Responded? ==> o == Threw(IoException)
  {
    match a
    case Responded(code, _) => if IsSuccessful(code) then Returned(()) else Threw(Raised(SessionError))
    case _ => Threw(IoException)
  }

  /**
   * The final request of either client (`fetchClassicStatusPage`,
   * `fetchInitUserInfo`): a single call; 401 means wrong credentials,
   * anything but 200 with a body is a data-fetch failure.
   */
  function BodyStep(a: Attempt): (o: Outcome<string>)
    ensures a.Responded? && a.code == 401 ==> o == Threw(Raised(AuthenticationFailed))
    ensures a.Responded? && a.code != 401 && (a.code != 200 || a.body.None?) ==> o == Threw(Raised(DataFetchFailed))
    ensures o.Returned? <==> a.Responded? && a.code == 200 && a.body.Some?
    ensures o.Returned? ==> o.value == a.body.value
    ensures !a.Responded? ==> o == Threw(IoException)
  {
    match a
    case Responded(code, body) =>
      if code == 401 then Threw(Raised(AuthenticationFailed))
      else if body.None? || code != 200 then Threw(Raised(DataFetchFailed))
      else Returned(body.value)
    case _ => Threw(IoException)
  }

  /** An attempt after which the loop tries again (unless it has run out of attempts). */
  predicate Retryable(a: Attempt) {
    (a.Responded? && !IsSuccessful(a.code)) || a.TimedOut?
  }

  /**
   * The top-level `catch` of both clients: a `SejongAuthException` passes
   * through unchanged, an `IOException` becomes CONNECTION_FAILED.
   */
  function Catch<T>(o: Outcome<T>): (r: Result<T>)
    ensures o.Returned? <==> r.Ok?
    ensures o.Returned? ==> r.value == o.value
    ensures o.Threw? && o.thrown.Raised? ==> r == Fail(o.thrown.error)
    ensures o == Threw(IoException) ==> r == Fail(ConnectionFailed)
  {
    match o
    case Returned(v) => Ok(v)
    case Threw(Raised(e)) => Fail(e)
    case Threw(IoException) => Fail(ConnectionFailed)
  }

  function Max0(n: int): nat {
    if n < 0 then 0 else n
  }

  /**
   * The retry loop from attempt number `tryCount` onwards; `attempts(k)` is
   * what the k-th call (counting from 0) would bring. Yields the outcome and
   * the total number of calls made.
   */
  function RetryFrom(attempts: nat -> Attempt, maxRetry: int, tryCount: nat): (Outcome<Response>, nat)
    decreases maxRetry - tryCount
  {
    if tryCount >= maxRetry then (Threw(Raised(ConnectionFailed)), tryCount)
    else
      match attempts(tryCount)
      case Responded(code, body) =>
        if IsSuccessful(code) then (Returned(Response(code, body)), tryCount + 1)
        else RetryFrom(attempts, maxRetry, tryCount + 1)
      case TimedOut =>
        if tryCount + 1 >= maxRetry then (Threw(Raised(ConnectionTimeout)), tryCount + 1)
        else RetryFrom(attempts, maxRetry, tryCount + 1)
      case OtherIoError => (Threw(IoException), tryCount + 1)
  }

  function Retry(attempts: nat -> Attempt, maxRetry: int): (Outcome<Response>, nat) {
    RetryFrom(attempts, maxRetry, 0)
  }

  /** `executeWithRetry`, with the network supplied as the sequence of attempt outcomes. */
  method ExecuteWithRetry(attempts: nat -> Attempt, maxRetry: int) returns (r: Outcome<Response>, calls: nat)
    ensures (r, calls) == Retry(attempts, maxRetry)
  {
    var tryCount: nat := 0;
    while tryCount < maxRetry
      invariant RetryFrom(attempts, maxRetry, tryCount) == Retry(attempts, maxRetry)
      decreases maxRetry - tryCount
    {
      match attempts(tryCount) {
        case Responded(code, body) =>
          if IsSuccessful(code) {
            return Returned(Response(code, body)), tryCount + 1;
          }
          tryCount := tryCount + 1;
        case TimedOut =>
          tryCount := tryCount + 1;
          if tryCount >= maxRetry {
            return Threw(Raised(ConnectionTimeout)), tryCount;
          }
        case OtherIoError =>
          return Threw(IoException), tryCount + 1;
      }
    }
    return Threw(Raised(ConnectionFailed)), tryCount;
  }

  lemma {:induction false} RetryFromShape(attempts: nat -> Attempt, maxRetry: int, t: nat)
    requires t <= Max0(maxRetry)
    requires forall j: nat | j < t :: Retryable(attempts(j))
    requires t > 0 && attempts(t - 1).TimedOut? ==> t < maxRetry
    ensures var (r, calls) := RetryFrom(attempts, maxRetry, t);
      && t <= calls <= Max0(maxRetry)
      && (forall j: nat | j + 1 < calls :: Retryable(attempts(j)))
      && (r.Returned? <==> calls > 0 && attempts(calls - 1).Responded? && IsSuccessful(attempts(calls - 1).code))
      && (r.Returned? ==> r.value == Response(attempts(calls - 1).code, attempts(calls - 1).body))
      && (r == Threw(IoException) <==> calls > 0 && attempts(calls - 1).OtherIoError?)
      && (r == Threw(Raised(ConnectionTimeout)) <==> calls > 0 && calls == maxRetry && attempts(calls - 1).TimedOut?)
      && (r == Threw(Raised(ConnectionFailed)) <==>
            calls == Max0(maxRetry) && (calls == 0 || (attempts(calls - 1).Responded? && !IsSuccessful(attempts(calls - 1).code))))
      && (r.Threw? ==> r.thrown == IoException || r.thrown.error in {ConnectionTimeout, ConnectionFailed})
    decreases maxRetry - t
  {
    if t < maxRetry {
      var a := attempts(t);
      if Retryable(a) && !(a.TimedOut? && t + 1 >= maxRetry) {
        RetryFromShape(attempts, maxRetry, t + 1);
      }
    }
  }

  /**
   * The full contract of `executeWithRetry`. Every call but the last was
   * retried; the last call decides: a 2xx response is returned, another
   * `IOException` propagates, a timeout on the final permitted attempt raises
   * CONNECTION_TIMEOUT, and running out of attempts otherwise (including
   * `maxRetry <= 0`, with no call at all) raises CONNECTION_FAILED.
   */
  lemma RetryContract(attempts: nat -> Attempt, maxRetry: int)
    ensures var (r, calls) := Retry(attempts, maxRetry);
      && calls <= Max0(maxRetry)
      && (forall j: nat | j + 1 < calls :: Retryable(attempts(j)))
      && (r.Returned? <==> calls > 0 && attempts(calls - 1).Responded? && IsSuccessful(attempts(calls - 1).code))
      && (r.Returned? ==> r.value == Response(attempts(calls - 1).code, attempts(calls - 1).body))
      && (r == Threw(IoException) <==> calls > 0 && attempts(calls - 1).OtherIoError?)
      && (r == Threw(Raised(ConnectionTimeout)) <==> calls > 0 && calls == maxRetry && attempts(calls - 1).TimedOut?)
      && (r == Threw(Raised(ConnectionFailed)) <==>
            calls == Max0(maxRetry) && (calls == 0 || (attempts(calls - 1).Responded? && !IsSuccessful(attempts(calls - 1).code))))
      && (r.Threw? ==> r.thrown == IoException || r.thrown.error in {ConnectionTimeout, ConnectionFailed})
  {
    RetryFromShape(attempts, maxRetry, 0);
  }

  lemma {:induction false} RetryFromSkips(attempts: nat -> Attempt, maxRetry: int, t: nat, k: nat)
    requires t <= k < maxRetry
    requires forall j: nat | t <= j < k :: Retryable(attempts(j))
    ensures RetryFrom(attempts, maxRetry, t) == RetryFrom(attempts, maxRetry, k)
    decreases k - t
  {
    if t < k {
      RetryFromSkips(attempts, maxRetry, t + 1, k);
    }
  }

  /** The first 2xx response within the allowed attempts is returned, and no further call is made. */
  lemma FirstSuccessWins(attempts: nat -> Attempt, maxRetry: int, k: nat)
    requires k < maxRetry
    requires forall j: nat | j < k :: Retryable(attempts(j))
    requires attempts(k).Responded? && IsSuccessful(attempts(k).code)
    ensures Retry(attempts, maxRetry) == (Returned(Response(attempts(k).code, attempts(k).body)), k + 1)
  {
    RetryFromSkips(attempts, maxRetry, 0, k);
  }

  /** When every attempt times out, exactly `maxRetry` calls are made and CONNECTION_TIMEOUT is raised. */
  lemma AllTimeouts(attempts: nat -> Attempt, maxRetry: int)
    requires maxRetry > 0
    requires forall j: nat | j < maxRetry :: attempts(j) == TimedOut
    ensures Retry(attempts, maxRetry) == (Threw(Raised(ConnectionTimeout)), maxRetry as nat)
  {
    RetryFromSkips(attempts, maxRetry, 0, maxRetry - 1);
  }

  /**
   * When the attempts run out and the last one got a non-2xx response,
   * CONNECTION_FAILED is raised, whatever mix of timeouts and failures came before.
   */
  lemma ExhaustedOnFailure(attempts: nat -> Attempt, maxRetry: int)
    requires maxRetry > 0
    requires forall j: nat | j < maxRetry :: Retryable(attempts(j))
    requires attempts(maxRetry - 1).Responded?
    ensures Retry(attempts, maxRetry) == (Threw(Raised(ConnectionFailed)), maxRetry as nat)
  {
    RetryFromSkips(attempts, maxRetry, 0, maxRetry - 1);
  }

  /** With `maxRetry <= 0` the loop body never runs: no call, CONNECTION_FAILED. */
  lemma NoAttemptAllowed(attempts: nat -> Attempt, maxRetry: int)
    requires maxRetry <= 0
    ensures Retry(attempts, maxRetry) == (Threw(Raised(ConnectionFailed)), 0)
  {
  }

  /** An `IOException` that is not a timeout ends the loop at once and propagates. */
  lemma OtherIoErrorStops(attempts: nat -> Attempt, maxRetry: int, k: nat)
    requires k < maxRetry
    requires forall j: nat | j < k :: Retryable(attempts(j))
    requires attempts(k) == OtherIoError
    ensures Retry(attempts, maxRetry) == (Threw(IoException), k + 1)
  {
    RetryFromSkips(attempts, maxRetry, 0, k);
  }

  /** `n` copies of the same request: what a retried step puts on the wire. */
  function Repeat(req: Request, n: nat): (rs: seq<Request>)
    ensures |rs| == n
    ensures forall i | 0 <= i < n :: rs[i] == req
  {
    if n == 0 then [] else [req] + Repeat(req, n - 1)
  }
}
