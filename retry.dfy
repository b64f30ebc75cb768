/** The retry policy of `NoteApiClient.requestWithRetry` (src/core/note-api/client.ts):
    each attempt passes the rate limiter, sends the request and either returns the
    response or, after a failure, waits `retryDelayMs * 2^retryCount` milliseconds and
    tries again while `retryCount < maxRetries`. The transport and the clock are
    parameters indexed by the attempt number. */
module Retry {

  import opened Wrappers
  import opened RateLimit

  /** The part of a request the model keeps: the method, the URL and the `Cookie`
      header. */
  datatype Request = Request(httpMethod: string, url: string, cookie: string)

  /** What one `fetch` produced: a response with its status code, or a thrown failure
      (a network error, or the abort when the timeout fires). */
  datatype Reply = Received(status: int) | Aborted

  /** The errors a request can end with. */
  datatype RequestError =
    | AuthNotSet                          // no cookie auth when the headers are built
    | RateLimitExceeded(wait: Option<int>) // the client's own limiter refused; wait in seconds
    | HttpFailure(status: int)            // a response that is not `ok`
    | NetworkFailure                      // `fetch` threw

  /** `response.ok`. */
  predicate IsOk(status: int) {
    200 <= status <= 299
  }

  /** Which errors are retried: as the code is written, every one; as the comment at
      the 4xx branch says, every one but a 4xx response. */
  datatype Policy = AsWritten | Intended

  predicate Retryable(policy: Policy, e: RequestError) {
    policy.AsWritten? || !(e.HttpFailure? && 400 <= e.status < 500)
  }

  /** The client settings the retry loop uses. */
  datatype RetryConfig = RetryConfig(maxRetries: int, retryDelayMs: int, limit: int)

  function Pow2(k: nat): (r: nat)
    ensures r >= 1
  {
    if k == 0 then 1 else 2 * Pow2(k - 1)
  }

  /** The sleep after failure number `k` (0-based): the base delay, doubled once per
      earlier failure. */
  function Delay(cfg: RetryConfig, k: nat): int
    decreases k
  {
    if k == 0 then cfg.retryDelayMs else 2 * Delay(cfg, k - 1)
  }

  /** The sleep after failure `k` is `retryDelayMs * 2^k`, the client's
      `retryDelayMs * (2 ** retryCount)`. */
  lemma {:induction false} DelayClosedForm(cfg: RetryConfig, k: nat)
    ensures Delay(cfg, k) == cfg.retryDelayMs * Pow2(k)
    decreases k
  {
    if k > 0 {
      DelayClosedForm(cfg, k - 1);
      assert cfg.retryDelayMs * (2 * Pow2(k - 1)) == 2 * (cfg.retryDelayMs * Pow2(k - 1));
    }
  }

  /** The outcome of one attempt, given what the rate limiter decided and what the
      transport replied. A refused attempt sends nothing. */
  function Attempt(gate: Gate, reply: Reply): (r: Result<int, RequestError>)
    ensures r.Success? ==> gate.admitted && reply == Received(r.value) && IsOk(r.value)
    ensures !gate.admitted ==> r == Failure(RateLimitExceeded(gate.wait))
    ensures r.Failure? && r.error.HttpFailure? ==> reply == Received(r.error.status) && !IsOk(r.error.status)
    ensures r.Failure? && r.error.NetworkFailure? ==> reply == Aborted
    ensures r.Failure? ==> r.error.RateLimitExceeded? || r.error.HttpFailure? || r.error.NetworkFailure?
    ensures gate.admitted && reply.Received? && IsOk(reply.status) ==> r == Success(reply.status)
    ensures gate.admitted && r.Failure? ==> !r.error.RateLimitExceeded?
  {
    if !gate.admitted then Failure(RateLimitExceeded(gate.wait))
    else match reply
      case Received(status) => if IsOk(status) then Success(status) else Failure(HttpFailure(status))
      case Aborted => Failure(NetworkFailure)
  }

  /** A whole `requestWithRetry`: its result (the status of the response it returns, or
      the error it throws), the request log afterwards, the sleeps it made, and the
      number of attempts. */
  datatype Run = Run(result: Result<int, RequestError>, log: seq<int>, delays: seq<int>, attempts: nat)

  /** `requestWithRetry(url, options, retryCount)` on the request log `log`. */
  function RunFrom(policy: Policy, cfg: RetryConfig, request: Request, transport: (Request, nat) -> Reply,
                   clock: nat -> int, log: seq<int>, retryCount: nat): (run: Run)
    ensures run.attempts >= 1 && |run.delays| == run.attempts - 1
    decreases cfg.maxRetries - retryCount
  {
    var gate := Admit(log, cfg.limit, clock(retryCount));
    var outcome := Attempt(gate, transport(request, retryCount));
    if outcome.Failure? && Retryable(policy, outcome.error) && retryCount < cfg.maxRetries then
      var rest := RunFrom(policy, cfg, request, transport, clock, gate.log, retryCount + 1);
      Run(rest.result, rest.log, [Delay(cfg, retryCount)] + rest.delays, rest.attempts + 1)
    else
      Run(outcome, gate.log, [], 1)
  }

  /** A run whose first attempt is its last: the attempt's outcome and log. */
  lemma RunStops(policy: Policy, cfg: RetryConfig, request: Request,
                 transport: (Request, nat) -> Reply, clock: nat -> int, log: seq<int>, retryCount: nat,
                 outcome: Result<int, RequestError>)
    requires outcome == Attempt(Admit(log, cfg.limit, clock(retryCount)), transport(request, retryCount))
    requires outcome.Success? || !Retryable(policy, outcome.error) || retryCount >= cfg.maxRetries
    ensures RunFrom(policy, cfg, request, transport, clock, log, retryCount)
            == Run(outcome, Admit(log, cfg.limit, clock(retryCount)).log, [], 1)
  {
  }

  /** An admitted attempt that gets an `ok` response returns it at once: no sleep, no
      further attempt. */
  lemma RunReturnsOk(policy: Policy, cfg: RetryConfig, request: Request,
                     transport: (Request, nat) -> Reply, clock: nat -> int, log: seq<int>, retryCount: nat,
                     status: int)
    requires Admit(log, cfg.limit, clock(retryCount)).admitted
    requires transport(request, retryCount) == Received(status) && IsOk(status)
    ensures RunFrom(policy, cfg, request, transport, clock, log, retryCount)
            == Run(Success(status), Admit(log, cfg.limit, clock(retryCount)).log, [], 1)
  {
    var outcome := Attempt(Admit(log, cfg.limit, clock(retryCount)), transport(request, retryCount));
    RunStops(policy, cfg, request, transport, clock, log, retryCount, outcome);
  }

  /** A run whose first attempt is retried: one sleep, then the rest of the run. */
  lemma RunContinues(policy: Policy, cfg: RetryConfig, request: Request,
                     transport: (Request, nat) -> Reply, clock: nat -> int, log: seq<int>, retryCount: nat,
                     outcome: Result<int, RequestError>)
    requires outcome == Attempt(Admit(log, cfg.limit, clock(retryCount)), transport(request, retryCount))
    requires outcome.Failure? && Retryable(policy, outcome.error) && retryCount < cfg.maxRetries
    ensures RunFrom(policy, cfg, request, transport, clock, log, retryCount)
            == Resume(RunFrom(policy, cfg, request, transport, clock, Admit(log, cfg.limit, clock(retryCount)).log,
                              retryCount + 1),
                      [Delay(cfg, retryCount)], 1)
  {
  }

  /** A run that continues after `delays` and `done` earlier attempts. */
  function Resume(run: Run, delays: seq<int>, done: nat): (r: Run)
    ensures r.result == run.result && r.log == run.log
    ensures r.delays == delays + run.delays && r.attempts == done + run.attempts
  {
    Run(run.result, run.log, delays + run.delays, done + run.attempts)
  }

  /** At most `maxRetries + 1` attempts in all, and one when `maxRetries` is not
      positive. */
  lemma {:induction false} RunAttempts(policy: Policy, cfg: RetryConfig, request: Request,
      transport: (Request, nat) -> Reply, clock: nat -> int, log: seq<int>, retryCount: nat)
    ensures RunFrom(policy, cfg, request, transport, clock, log, retryCount).attempts
            <= if cfg.maxRetries >= retryCount then cfg.maxRetries - retryCount + 1 else 1
    decreases cfg.maxRetries - retryCount
  {
    var gate := Admit(log, cfg.limit, clock(retryCount));
    var outcome := Attempt(gate, transport(request, retryCount));
    if outcome.Failure? && Retryable(policy, outcome.error) && retryCount < cfg.maxRetries {
      RunAttempts(policy, cfg, request, transport, clock, gate.log, retryCount + 1);
    }
  }

  /** Entry `i` of `delays` is the sleep after failure `k + i`. */
  predicate DelaysFrom(cfg: RetryConfig, delays: seq<int>, k: nat) {
    forall i :: 0 <= i < |delays| ==> delays[i] == Delay(cfg, k + i)
  }

  /** Failure number `k` of the call sleeps `retryDelayMs * 2^k` milliseconds. */
  lemma {:induction false} RunDelays(policy: Policy, cfg: RetryConfig, request: Request,
      transport: (Request, nat) -> Reply, clock: nat -> int, log: seq<int>, retryCount: nat)
    ensures DelaysFrom(cfg, RunFrom(policy, cfg, request, transport, clock, log, retryCount).delays, retryCount)
    decreases cfg.maxRetries - retryCount
  {
    var run := RunFrom(policy, cfg, request, transport, clock, log, retryCount);
    var gate := Admit(log, cfg.limit, clock(retryCount));
    var outcome := Attempt(gate, transport(request, retryCount));
    if outcome.Failure? && Retryable(policy, outcome.error) && retryCount < cfg.maxRetries {
      var rest := RunFrom(policy, cfg, request, transport, clock, gate.log, retryCount + 1);
      RunContinues(policy, cfg, request, transport, clock, log, retryCount, outcome);
      RunDelays(policy, cfg, request, transport, clock, gate.log, retryCount + 1);
      DelaysShift(cfg, run.delays, rest.delays, retryCount);
    } else {
      RunStops(policy, cfg, request, transport, clock, log, retryCount, outcome);
    }
  }

  /** Prepending the sleep after failure `k` to the sleeps from failure `k + 1` on gives
      the sleeps from failure `k` on. */
  lemma DelaysShift(cfg: RetryConfig, delays: seq<int>, rest: seq<int>, k: nat)
    requires delays == [Delay(cfg, k)] + rest && DelaysFrom(cfg, rest, k + 1)
    ensures DelaysFrom(cfg, delays, k)
  {
    forall i | 0 <= i < |delays| ensures delays[i] == Delay(cfg, k + i) {
      if i > 0 {
        assert delays[i] == rest[i - 1];
      }
    }
  }

  /** Every attempt passes through the rate limiter, so the log stays within the
      limit across the whole call. */
  lemma {:induction false} RunKeepsLimit(policy: Policy, cfg: RetryConfig, request: Request,
      transport: (Request, nat) -> Reply, clock: nat -> int, log: seq<int>, retryCount: nat)
    requires WithinLimit(log, cfg.limit)
    ensures WithinLimit(RunFrom(policy, cfg, request, transport, clock, log, retryCount).log, cfg.limit)
    decreases cfg.maxRetries - retryCount
  {
    var gate := Admit(log, cfg.limit, clock(retryCount));
    AdmitKeepsLimit(log, cfg.limit, clock(retryCount));
    var outcome := Attempt(gate, transport(request, retryCount));
    if outcome.Failure? && Retryable(policy, outcome.error) && retryCount < cfg.maxRetries {
      RunKeepsLimit(policy, cfg, request, transport, clock, gate.log, retryCount + 1);
    }
  }

  /** The number of the last attempt of a run that started at `retryCount`. */
  function LastAttempt(run: Run, retryCount: nat): nat {
    if run.attempts == 0 then retryCount else retryCount + run.attempts - 1
  }

  /** A response is returned only when the last attempt got an `ok` reply. */
  lemma {:induction false} RunReturnsOnlyOk(policy: Policy, cfg: RetryConfig, request: Request,
      transport: (Request, nat) -> Reply, clock: nat -> int, log: seq<int>, retryCount: nat)
    ensures RunFrom(policy, cfg, request, transport, clock, log, retryCount).result.Success? ==>
      IsOk(RunFrom(policy, cfg, request, transport, clock, log, retryCount).result.value)
      && transport(request, LastAttempt(RunFrom(policy, cfg, request, transport, clock, log, retryCount), retryCount)) == Received(RunFrom(policy, cfg, request, transport, clock, log, retryCount).result.value)
    decreases cfg.maxRetries - retryCount
  {
    var run := RunFrom(policy, cfg, request, transport, clock, log, retryCount);
    var gate := Admit(log, cfg.limit, clock(retryCount));
    var outcome := Attempt(gate, transport(request, retryCount));
    if outcome.Failure? && Retryable(policy, outcome.error) && retryCount < cfg.maxRetries {
      var rest := RunFrom(policy, cfg, request, transport, clock, gate.log, retryCount + 1);
      RunReturnsOnlyOk(policy, cfg, request, transport, clock, gate.log, retryCount + 1);
      RunContinues(policy, cfg, request, transport, clock, log, retryCount, outcome);
      assert run.result == rest.result && LastAttempt(run, retryCount) == LastAttempt(rest, retryCount + 1);
    } else {
      RunStops(policy, cfg, request, transport, clock, log, retryCount, outcome);
      assert run.result == outcome && LastAttempt(run, retryCount) == retryCount;
    }
  }


  /** An error is thrown only when it is not retryable or the retries are used up. */
  lemma {:induction false} RunGivesUp(policy: Policy, cfg: RetryConfig, request: Request,
      transport: (Request, nat) -> Reply, clock: nat -> int, log: seq<int>, retryCount: nat)
    ensures RunFrom(policy, cfg, request, transport, clock, log, retryCount).result.Failure? ==>
      !Retryable(policy, RunFrom(policy, cfg, request, transport, clock, log, retryCount).result.error) || LastAttempt(RunFrom(policy, cfg, request, transport, clock, log, retryCount), retryCount) >= cfg.maxRetries
    decreases cfg.maxRetries - retryCount
  {
    var run := RunFrom(policy, cfg, request, transport, clock, log, retryCount);
    var gate := Admit(log, cfg.limit, clock(retryCount));
    var outcome := Attempt(gate, transport(request, retryCount));
    if outcome.Failure? && Retryable(policy, outcome.error) && retryCount < cfg.maxRetries {
      var rest := RunFrom(policy, cfg, request, transport, clock, gate.log, retryCount + 1);
      RunGivesUp(policy, cfg, request, transport, clock, gate.log, retryCount + 1);
      RunContinues(policy, cfg, request, transport, clock, log, retryCount, outcome);
      assert run.result == rest.result && LastAttempt(run, retryCount) == LastAttempt(rest, retryCount + 1);
    } else {
      RunStops(policy, cfg, request, transport, clock, log, retryCount, outcome);
      assert run.result == outcome && LastAttempt(run, retryCount) == retryCount;
    }
  }


  /** The error thrown is the last attempt's own: a response that is not `ok`, with its status. */
  lemma {:induction false} RunRethrowsStatus(policy: Policy, cfg: RetryConfig, request: Request,
      transport: (Request, nat) -> Reply, clock: nat -> int, log: seq<int>, retryCount: nat)
    ensures RunFrom(policy, cfg, request, transport, clock, log, retryCount).result.Failure? && RunFrom(policy, cfg, request, transport, clock, log, retryCount).result.error.HttpFailure? ==>
      !IsOk(RunFrom(policy, cfg, request, transport, clock, log, retryCount).result.error.status)
      && transport(request, LastAttempt(RunFrom(policy, cfg, request, transport, clock, log, retryCount), retryCount)) == Received(RunFrom(policy, cfg, request, transport, clock, log, retryCount).result.error.status)
    decreases cfg.maxRetries - retryCount
  {
    var run := RunFrom(policy, cfg, request, transport, clock, log, retryCount);
    var gate := Admit(log, cfg.limit, clock(retryCount));
    var outcome := Attempt(gate, transport(request, retryCount));
    if outcome.Failure? && Retryable(policy, outcome.error) && retryCount < cfg.maxRetries {
      var rest := RunFrom(policy, cfg, request, transport, clock, gate.log, retryCount + 1);
      RunRethrowsStatus(policy, cfg, request, transport, clock, gate.log, retryCount + 1);
      RunContinues(policy, cfg, request, transport, clock, log, retryCount, outcome);
      assert run.result == rest.result && LastAttempt(run, retryCount) == LastAttempt(rest, retryCount + 1);
    } else {
      RunStops(policy, cfg, request, transport, clock, log, retryCount, outcome);
      assert run.result == outcome && LastAttempt(run, retryCount) == retryCount;
    }
  }

  /** The error thrown is the last attempt's own: the transport failure. */
  lemma {:induction false} RunRethrowsAbort(policy: Policy, cfg: RetryConfig, request: Request,
      transport: (Request, nat) -> Reply, clock: nat -> int, log: seq<int>, retryCount: nat)
    ensures RunFrom(policy, cfg, request, transport, clock, log, retryCount).result.Failure? && RunFrom(policy, cfg, request, transport, clock, log, retryCount).result.error.NetworkFailure? ==>
      transport(request, LastAttempt(RunFrom(policy, cfg, request, transport, clock, log, retryCount), retryCount)) == Aborted
    decreases cfg.maxRetries - retryCount
  {
    var run := RunFrom(policy, cfg, request, transport, clock, log, retryCount);
    var gate := Admit(log, cfg.limit, clock(retryCount));
    var outcome := Attempt(gate, transport(request, retryCount));
    if outcome.Failure? && Retryable(policy, outcome.error) && retryCount < cfg.maxRetries {
      var rest := RunFrom(policy, cfg, request, transport, clock, gate.log, retryCount + 1);
      RunRethrowsAbort(policy, cfg, request, transport, clock, gate.log, retryCount + 1);
      RunContinues(policy, cfg, request, transport, clock, log, retryCount, outcome);
      assert run.result == rest.result && LastAttempt(run, retryCount) == LastAttempt(rest, retryCount + 1);
    } else {
      RunStops(policy, cfg, request, transport, clock, log, retryCount, outcome);
      assert run.result == outcome && LastAttempt(run, retryCount) == retryCount;
    }
  }


  function Sum(s: seq<int>): int
    decreases |s|
  {
    if s == [] then 0 else Sum(s[..|s| - 1]) + s[|s| - 1]
  }

  /** The sleeps after failures `0 .. n-1` add up to the sleep after failure `n` less
      the base delay. */
  lemma {:induction false} GeometricDelays(cfg: RetryConfig, s: seq<int>)
    requires DelaysFrom(cfg, s, 0)
    ensures Sum(s) == Delay(cfg, |s|) - cfg.retryDelayMs
    decreases |s|
  {
    if s != [] {
      assert s[|s| - 1] == Delay(cfg, |s| - 1);
      GeometricDelays(cfg, s[..|s| - 1]);
    }
  }

  /** Before attempt `n + 1` of a call the client has slept `retryDelayMs * (2^n - 1)`
      milliseconds in all. */
  lemma TotalDelay(policy: Policy, cfg: RetryConfig, request: Request,
                   transport: (Request, nat) -> Reply, clock: nat -> int, log: seq<int>)
    ensures var run := RunFrom(policy, cfg, request, transport, clock, log, 0);
      Sum(run.delays) == cfg.retryDelayMs * (Pow2(run.attempts - 1) - 1)
  {
    var run := RunFrom(policy, cfg, request, transport, clock, log, 0);
    RunDelays(policy, cfg, request, transport, clock, log, 0);
    GeometricDelays(cfg, run.delays);
    DelayClosedForm(cfg, |run.delays|);
    Distribute(cfg.retryDelayMs, Pow2(|run.delays|));
  }

  lemma Distribute(a: int, b: int)
    ensures a * (b - 1) == a * b - a
  {
  }

  /** With room in the rate limiter for every attempt and a server that always answers
      with the same 4xx status, the run makes `maxRetries - retryCount + 1` attempts
      under `policy` `AsWritten`, and a single one under `Intended`; both end with that
      status. */
  lemma {:induction false} ClientErrorAttempts(policy: Policy, cfg: RetryConfig, request: Request,
                                              transport: (Request, nat) -> Reply, clock: nat -> int,
                                              log: seq<int>, retryCount: nat, status: int)
    requires 400 <= status < 500 && retryCount <= cfg.maxRetries
    requires forall k :: transport(request, k) == Received(status)
    requires |log| + cfg.maxRetries - retryCount < cfg.limit
    ensures var run := RunFrom(policy, cfg, request, transport, clock, log, retryCount);
      && run.result == Failure(HttpFailure(status))
      && run.attempts == (if policy.AsWritten? then cfg.maxRetries - retryCount + 1 else 1)
    decreases cfg.maxRetries - retryCount
  {
    var gate := Admit(log, cfg.limit, clock(retryCount));
    PruneShrinks(log, clock(retryCount));
    assert gate.admitted;
    var outcome := Attempt(gate, transport(request, retryCount));
    assert transport(request, retryCount) == Received(status);
    assert outcome == Failure(HttpFailure(status));
    if policy.AsWritten? && retryCount < cfg.maxRetries {
      RunContinues(policy, cfg, request, transport, clock, log, retryCount, outcome);
      ClientErrorAttempts(policy, cfg, request, transport, clock, gate.log, retryCount + 1, status);
    } else {
      RunStops(policy, cfg, request, transport, clock, log, retryCount, outcome);
    }
  }

  /** As written: a server that always answers with the same 4xx status is asked
      `maxRetries + 1` times (four times with the default settings) before the error is
      thrown, although the comment at the 4xx branch says such errors are not retried. */
  lemma ClientErrorRetried(cfg: RetryConfig, request: Request, transport: (Request, nat) -> Reply,
                           clock: nat -> int, log: seq<int>, status: int)
    requires 400 <= status < 500 && 0 <= cfg.maxRetries && |log| + cfg.maxRetries < cfg.limit
    requires forall k :: transport(request, k) == Received(status)
    ensures RunFrom(AsWritten, cfg, request, transport, clock, log, 0).result == Failure(HttpFailure(status))
    ensures RunFrom(AsWritten, cfg, request, transport, clock, log, 0).attempts == cfg.maxRetries + 1
  {
    ClientErrorAttempts(AsWritten, cfg, request, transport, clock, log, 0, status);
  }

  /** As the comment intends: the same server is asked once and its 4xx error is
      thrown at once. */
  lemma ClientErrorNotRetried(cfg: RetryConfig, request: Request, transport: (Request, nat) -> Reply,
                              clock: nat -> int, log: seq<int>, status: int)
    requires 400 <= status < 500 && 0 <= cfg.maxRetries && |log| + cfg.maxRetries < cfg.limit
    requires forall k :: transport(request, k) == Received(status)
    ensures RunFrom(Intended, cfg, request, transport, clock, log, 0).result == Failure(HttpFailure(status))
    ensures RunFrom(Intended, cfg, request, transport, clock, log, 0).attempts == 1
  {
    ClientErrorAttempts(Intended, cfg, request, transport, clock, log, 0, status);
  }
}
