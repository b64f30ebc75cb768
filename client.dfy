/** `NoteApiClient` (src/core/note-api/client.ts): its settings, the cookie
    authentication, the request log of the rate limiter, and the retry loop around each
    request. The network, the timeout timer and the sleeps are not executed: each
    attempt's reply comes from `transport`, each attempt's clock reading from `clock`,
    and the sleeps are returned as numbers. */
module NoteApi {

  import opened Wrappers
  import opened Text
  import opened RateLimit
  import opened Retry

  /** One cookie of `NoteCookieAuth`; only its name and value reach the request. */
  datatype Cookie = Cookie(name: string, value: string)

  /** `NoteCookieAuth`. */
  datatype NoteCookieAuth = NoteCookieAuth(cookies: seq<Cookie>, expiresAt: int)

  /** `NoteApiClientConfig`: every setting may be left out. */
  datatype ClientConfig = ClientConfig(
    baseUrl: Option<string>,
    timeout: Option<int>,
    maxRetries: Option<int>,
    retryDelayMs: Option<int>,
    rateLimitRequestsPerMinute: Option<int>)

  const DefaultBaseUrl: string := "https://note.com"
  const DefaultTimeout: int := 30000
  const DefaultMaxRetries: int := 3
  const DefaultRetryDelayMs: int := 1000
  const DefaultRateLimit: int := 10

  /** `value || fallback` for a number: an absent value and `0` are falsy. */
  function OrDefault(value: Option<int>, fallback: int): (r: int)
    ensures value.None? || value.value == 0 ==> r == fallback
    ensures value.Some? && value.value != 0 ==> r == value.value
  {
    if value.None? || value.value == 0 then fallback else value.value
  }

  /** `value || fallback` for a string: an absent value and `""` are falsy. */
  function OrDefaultText(value: Option<string>, fallback: string): (r: string)
    ensures value.None? || value.value == "" ==> r == fallback
    ensures value.Some? && value.value != "" ==> r == value.value
  {
    if value.None? || value.value == "" then fallback else value.value
  }

  /** `${cookie.name}=${cookie.value}` for each cookie, in order. */
  function CookiePairs(cookies: seq<Cookie>): (r: seq<string>)
    ensures |r| == |cookies|
    ensures forall k :: 0 <= k < |cookies| ==> r[k] == cookies[k].name + "=" + cookies[k].value
    decreases |cookies|
  {
    if cookies == [] then [] else [cookies[0].name + "=" + cookies[0].value] + CookiePairs(cookies[1..])
  }

  /** The `Cookie` header: the pairs joined with `; `. */
  function CookieHeader(cookies: seq<Cookie>): string {
    Join(CookiePairs(cookies), "; ")
  }

  /** The header is empty without cookies, a single pair for one cookie, and each
      further cookie adds `; ` and its pair at the end. */
  lemma CookieHeaderShape(cookies: seq<Cookie>, c: Cookie)
    ensures CookieHeader([]) == ""
    ensures CookieHeader([c]) == c.name + "=" + c.value
    ensures cookies != [] ==> CookieHeader(cookies + [c]) == CookieHeader(cookies) + "; " + c.name + "=" + c.value
  {
    if cookies != [] {
      assert CookiePairs(cookies + [c]) == CookiePairs(cookies) + [c.name + "=" + c.value];
      JoinSnoc(CookiePairs(cookies), c.name + "=" + c.value, "; ");
    }
  }

  /** Resuming twice is resuming once with the sleeps joined. */
  lemma ResumeTwice(rest: Run, delays: seq<int>, d: int, n: nat)
    ensures Resume(Resume(rest, [d], 1), delays, n) == Resume(rest, delays + [d], n + 1)
  {
    assert delays + ([d] + rest.delays) == (delays + [d]) + rest.delays;
  }

  /** The retry loop's invariant: the whole run `full` is what is left of the run from
      attempt `retryCount` on the log `log`, after the sleeps `delays` made so far. */
  ghost predicate Remains(full: Run, cfg: RetryConfig, request: Request, transport: (Request, nat) -> Reply,
                          clock: nat -> int, log: seq<int>, retryCount: nat, delays: seq<int>) {
    full == Resume(RunFrom(AsWritten, cfg, request, transport, clock, log, retryCount), delays, retryCount)
  }

  /** Before the first attempt the whole run remains. */
  lemma LoopStarts(cfg: RetryConfig, request: Request, transport: (Request, nat) -> Reply,
                   clock: nat -> int, log: seq<int>)
    ensures Remains(RunFrom(AsWritten, cfg, request, transport, clock, log, 0), cfg, request, transport, clock, log, 0, [])
  {
    var full := RunFrom(AsWritten, cfg, request, transport, clock, log, 0);
    assert [] + full.delays == full.delays;
  }

  /** The retry loop's last attempt: the whole run ends with its outcome, after the
      sleeps made so far. */
  lemma LoopStops(full: Run, cfg: RetryConfig, request: Request, transport: (Request, nat) -> Reply,
                  clock: nat -> int, log: seq<int>, retryCount: nat, delays: seq<int>,
                  outcome: Result<int, RequestError>)
    requires Remains(full, cfg, request, transport, clock, log, retryCount, delays)
    requires outcome == Attempt(Admit(log, cfg.limit, clock(retryCount)), transport(request, retryCount))
    requires outcome.Success? || retryCount >= cfg.maxRetries
    ensures full.result == outcome && full.delays == delays && full.attempts == retryCount + 1
    ensures full.log == Admit(log, cfg.limit, clock(retryCount)).log
  {
    RunStops(AsWritten, cfg, request, transport, clock, log, retryCount, outcome);
    assert delays + [] == delays;
  }

  /** A retried attempt: the whole run is the rest of the run after one more sleep of
      `retryDelayMs * 2^retryCount`. */
  lemma LoopContinues(full: Run, cfg: RetryConfig, request: Request, transport: (Request, nat) -> Reply,
                      clock: nat -> int, log: seq<int>, retryCount: nat, delays: seq<int>,
                      outcome: Result<int, RequestError>)
    requires Remains(full, cfg, request, transport, clock, log, retryCount, delays)
    requires outcome == Attempt(Admit(log, cfg.limit, clock(retryCount)), transport(request, retryCount))
    requires outcome.Failure? && retryCount < cfg.maxRetries
    ensures Remains(full, cfg, request, transport, clock, Admit(log, cfg.limit, clock(retryCount)).log,
                    retryCount + 1, delays + [cfg.retryDelayMs * Pow2(retryCount)])
  {
    RunContinues(AsWritten, cfg, request, transport, clock, log, retryCount, outcome);
    var rest := RunFrom(AsWritten, cfg, request, transport, clock, Admit(log, cfg.limit, clock(retryCount)).log,
                        retryCount + 1);
    DelayClosedForm(cfg, retryCount);
    ResumeTwice(rest, delays, cfg.retryDelayMs * Pow2(retryCount), retryCount);
  }

  /** `getRequestStats`'s result. */
  datatype RequestStats = RequestStats(requestsInLastMinute: nat, rateLimitRemaining: int)

  class NoteApiClient {
    const baseUrl: string
    const timeout: int
    const maxRetries: int
    const retryDelayMs: int
    const rateLimitRequestsPerMinute: int
    var cookieAuth: Option<NoteCookieAuth>
    var requestTimestamps: seq<int>

    /** The request log never holds more entries than the limit allows. */
    predicate Valid()
      reads this
    {
      WithinLimit(requestTimestamps, rateLimitRequestsPerMinute)
    }

    /** The settings the retry loop uses. */
    function Settings(): RetryConfig {
      RetryConfig(maxRetries, retryDelayMs, rateLimitRequestsPerMinute)
    }

    /** The constructor: each setting left out, or set to a falsy `0` or `""`, takes its
        default; no cookie auth and an empty request log. */
    constructor(config: ClientConfig)
      ensures baseUrl == OrDefaultText(config.baseUrl, DefaultBaseUrl)
      ensures timeout == OrDefault(config.timeout, DefaultTimeout)
      ensures maxRetries == OrDefault(config.maxRetries, DefaultMaxRetries)
      ensures retryDelayMs == OrDefault(config.retryDelayMs, DefaultRetryDelayMs)
      ensures rateLimitRequestsPerMinute == OrDefault(config.rateLimitRequestsPerMinute, DefaultRateLimit)
      ensures cookieAuth.None? && requestTimestamps == [] && Valid()
    {
      baseUrl := OrDefaultText(config.baseUrl, DefaultBaseUrl);
      timeout := OrDefault(config.timeout, DefaultTimeout);
      maxRetries := OrDefault(config.maxRetries, DefaultMaxRetries);
      retryDelayMs := OrDefault(config.retryDelayMs, DefaultRetryDelayMs);
      rateLimitRequestsPerMinute := OrDefault(config.rateLimitRequestsPerMinute, DefaultRateLimit);
      cookieAuth := None;
      requestTimestamps := [];
    }

    /** `setCookieAuth`: replaces the auth and nothing else. */
    method SetCookieAuth(auth: NoteCookieAuth)
      requires Valid()
      modifies this
      ensures Valid()
      ensures cookieAuth == Some(auth) && requestTimestamps == old(requestTimestamps)
    {
      cookieAuth := Some(auth);
    }

    /** `getCookieString`: fails exactly when no auth is set, and is otherwise the
        cookie header of the auth's cookies. */
    function GetCookieString(): (r: Result<string, RequestError>)
      reads this
      ensures r.Failure? <==> cookieAuth.None?
      ensures r.Failure? ==> r.error == AuthNotSet
      ensures r.Success? ==> r.value == CookieHeader(cookieAuth.value.cookies)
    {
      if cookieAuth.None? then Failure(AuthNotSet) else Success(CookieHeader(cookieAuth.value.cookies))
    }

    /** `getRequestStats` at time `now`: the requests of the last minute and the slots
        left, never negative; no slot is left exactly when `checkRateLimit` would
        refuse. The log is not changed. */
    function GetRequestStats(now: int): (s: RequestStats)
      reads this
      ensures s.requestsInLastMinute == |Prune(requestTimestamps, now)| && s.rateLimitRemaining >= 0
      ensures s.rateLimitRemaining == 0 <==> !Admit(requestTimestamps, rateLimitRequestsPerMinute, now).admitted
      ensures s.rateLimitRemaining > 0 ==> s.requestsInLastMinute + s.rateLimitRemaining == rateLimitRequestsPerMinute
    {
      var n := |Prune(requestTimestamps, now)|;
      RequestStats(n, if rateLimitRequestsPerMinute - n > 0 then rateLimitRequestsPerMinute - n else 0)
    }

    /** `checkRateLimit` at time `now`: the log is pruned whatever happens; a full log
        refuses the request with the wait in seconds, otherwise `now` is appended. */
    method CheckRateLimit(now: int) returns (r: Outcome<RequestError>)
      requires Valid()
      modifies this
      ensures Valid() && cookieAuth == old(cookieAuth)
      ensures requestTimestamps == Admit(old(requestTimestamps), rateLimitRequestsPerMinute, now).log
      ensures r.Pass? <==> Admit(old(requestTimestamps), rateLimitRequestsPerMinute, now).admitted
      ensures r.Fail? ==> r.error == RateLimitExceeded(Admit(old(requestTimestamps), rateLimitRequestsPerMinute, now).wait)
      ensures r.Fail? <==> old(GetRequestStats(now)).rateLimitRemaining == 0
    {
      AdmitKeepsLimit(requestTimestamps, rateLimitRequestsPerMinute, now);
      requestTimestamps := Prune(requestTimestamps, now);
      if |requestTimestamps| >= rateLimitRequestsPerMinute {
        return Fail(RateLimitExceeded(WaitSeconds(requestTimestamps, now)));
      }
      requestTimestamps := requestTimestamps + [now];
      return Pass;
    }

    /** One pass through the `try` block of `requestWithRetry`: the rate-limit check,
        then the request and its status test. */
    method AttemptOnce(request: Request, retryCount: nat, transport: (Request, nat) -> Reply, clock: nat -> int)
      returns (outcome: Result<int, RequestError>)
      requires Valid()
      modifies this
      ensures Valid() && cookieAuth == old(cookieAuth)
      ensures requestTimestamps == Admit(old(requestTimestamps), rateLimitRequestsPerMinute, clock(retryCount)).log
      ensures outcome == Attempt(Admit(old(requestTimestamps), rateLimitRequestsPerMinute, clock(retryCount)),
                                 transport(request, retryCount))
    {
      var checked := CheckRateLimit(clock(retryCount));
      if checked.Fail? {
        return Failure(checked.error);
      }
      match transport(request, retryCount)
      case Received(status) =>
        outcome := if IsOk(status) then Success(status) else Failure(HttpFailure(status));
      case Aborted =>
        outcome := Failure(NetworkFailure);
    }

    /** `requestWithRetry` from `retryCount = 0`: the response's status or the error
        thrown, the sleeps made between attempts and the number of attempts, as the
        retry model `RunFrom` with policy `AsWritten` gives them. */
    method RequestWithRetry(request: Request, transport: (Request, nat) -> Reply, clock: nat -> int)
      returns (result: Result<int, RequestError>, delays: seq<int>, attempts: nat)
      requires Valid()
      modifies this
      ensures Valid() && cookieAuth == old(cookieAuth)
      ensures result == RunFrom(AsWritten, Settings(), request, transport, clock, old(requestTimestamps), 0).result
      ensures delays == RunFrom(AsWritten, Settings(), request, transport, clock, old(requestTimestamps), 0).delays
      ensures attempts == RunFrom(AsWritten, Settings(), request, transport, clock, old(requestTimestamps), 0).attempts
      ensures requestTimestamps == RunFrom(AsWritten, Settings(), request, transport, clock, old(requestTimestamps), 0).log
    {
      ghost var cfg := Settings();
      ghost var full := RunFrom(AsWritten, cfg, request, transport, clock, requestTimestamps, 0);
      var retryCount: nat := 0;
      delays := [];
      LoopStarts(cfg, request, transport, clock, requestTimestamps);
      while true
        invariant Valid() && cookieAuth == old(cookieAuth)
        invariant Remains(full, cfg, request, transport, clock, requestTimestamps, retryCount, delays)
        decreases maxRetries - retryCount
      {
        ghost var before := requestTimestamps;
        var outcome := AttemptOnce(request, retryCount, transport, clock);
        if outcome.Success? || retryCount >= maxRetries {
          LoopStops(full, cfg, request, transport, clock, before, retryCount, delays, outcome);
          return outcome, delays, retryCount + 1;
        }
        LoopContinues(full, cfg, request, transport, clock, before, retryCount, delays, outcome);
        delays := delays + [retryDelayMs * Pow2(retryCount)];
        retryCount := retryCount + 1;
      }
    }

    /** The three note operations: the `Cookie` header is built before the first
        attempt, so without auth they fail at once and record nothing; with auth they
        are one `requestWithRetry` of the request. */
    method Call(httpMethod: string, url: string, transport: (Request, nat) -> Reply, clock: nat -> int)
      returns (result: Result<int, RequestError>)
      requires Valid()
      modifies this
      ensures Valid() && cookieAuth == old(cookieAuth)
      ensures cookieAuth.None? ==> result == Failure(AuthNotSet) && requestTimestamps == old(requestTimestamps)
      ensures cookieAuth.Some? ==>
        var request := Request(httpMethod, url, CookieHeader(cookieAuth.value.cookies));
        result == RunFrom(AsWritten, Settings(), request, transport, clock, old(requestTimestamps), 0).result
        && requestTimestamps == RunFrom(AsWritten, Settings(), request, transport, clock, old(requestTimestamps), 0).log
    {
      var cookie := GetCookieString();
      if cookie.Failure? {
        return Failure(cookie.error);
      }
      var request := Request(httpMethod, url, cookie.value);
      var delays, attempts;
      result, delays, attempts := RequestWithRetry(request, transport, clock);
    }

    /** `createTextNote`: a `POST` to `/api/v1/text_notes`. */
    method CreateTextNote(transport: (Request, nat) -> Reply, clock: nat -> int)
      returns (result: Result<int, RequestError>)
      requires Valid()
      modifies this
      ensures Valid() && cookieAuth == old(cookieAuth)
      ensures cookieAuth.None? ==> result == Failure(AuthNotSet) && requestTimestamps == old(requestTimestamps)
      ensures cookieAuth.Some? ==>
        var request := Request("POST", baseUrl + "/api/v1/text_notes", CookieHeader(cookieAuth.value.cookies));
        result == RunFrom(AsWritten, Settings(), request, transport, clock, old(requestTimestamps), 0).result
        && requestTimestamps == RunFrom(AsWritten, Settings(), request, transport, clock, old(requestTimestamps), 0).log
    {
      result := Call("POST", baseUrl + "/api/v1/text_notes", transport, clock);
    }

    /** `updateTextNote(id)`: a `PUT` to `/api/v1/text_notes/{id}`. */
    method UpdateTextNote(id: string, transport: (Request, nat) -> Reply, clock: nat -> int)
      returns (result: Result<int, RequestError>)
      requires Valid()
      modifies this
      ensures Valid() && cookieAuth == old(cookieAuth)
      ensures cookieAuth.None? ==> result == Failure(AuthNotSet) && requestTimestamps == old(requestTimestamps)
      ensures cookieAuth.Some? ==>
        var request := Request("PUT", baseUrl + "/api/v1/text_notes/" + id, CookieHeader(cookieAuth.value.cookies));
        result == RunFrom(AsWritten, Settings(), request, transport, clock, old(requestTimestamps), 0).result
        && requestTimestamps == RunFrom(AsWritten, Settings(), request, transport, clock, old(requestTimestamps), 0).log
    {
      result := Call("PUT", baseUrl + "/api/v1/text_notes/" + id, transport, clock);
    }

    /** `uploadImage`: a `POST` to `/api/v1/upload_image`. */
    method UploadImage(transport: (Request, nat) -> Reply, clock: nat -> int)
      returns (result: Result<int, RequestError>)
      requires Valid()
      modifies this
      ensures Valid() && cookieAuth == old(cookieAuth)
      ensures cookieAuth.None? ==> result == Failure(AuthNotSet) && requestTimestamps == old(requestTimestamps)
      ensures cookieAuth.Some? ==>
        var request := Request("POST", baseUrl + "/api/v1/upload_image", CookieHeader(cookieAuth.value.cookies));
        result == RunFrom(AsWritten, Settings(), request, transport, clock, old(requestTimestamps), 0).result
        && requestTimestamps == RunFrom(AsWritten, Settings(), request, transport, clock, old(requestTimestamps), 0).log
    {
      result := Call("POST", baseUrl + "/api/v1/upload_image", transport, clock);
    }
  }
}
