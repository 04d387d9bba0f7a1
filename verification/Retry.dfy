/** The client's retry loop, its backoff, and which errors it retries.

    Durations are natural numbers of nanoseconds. `checked` says whether the program is built
    with overflow checks: with them an overflow of `u32` stops it, without them it wraps.
    A response body is given as read: the code and message of an API error, or neither. */
module Retry {
  import opened Common

  const U32_BOUND: nat := 0x1_0000_0000

  type u32 = n: nat | n < U32_BOUND

  const U16_BOUND: nat := 0x1_0000

  type u16 = n: nat | n < U16_BOUND

  /** `Duration::MAX`: u64::MAX seconds and 999,999,999 nanoseconds. */
  const MAX_DURATION: nat := 0xFFFF_FFFF_FFFF_FFFF * 1_000_000_000 + 999_999_999

  type Duration = d: nat | d <= MAX_DURATION witness 0

  datatype ClientError =
    | HttpError(status: u16, message: string, code: Option<string>)
    | AuthError(message: string)
    | NotFoundError(message: string)
    | ValidationError(message: string)
    | ParseError
    | ConnectionError(message: string)
    | TimeoutError(after: Duration)
    | RetryExhausted(retries: u32, message: string)
    | AlreadyExistsError(message: string)
    | FallbackError(message: string)
    | NoFallbackAvailable
    | IoError
    | UrlError
    | RequestError(isConnect: bool, isTimeout: bool)
    | SerializationError

  predicate IsConnectionError(e: ClientError) {
    match e
    case ConnectionError(_) | TimeoutError(_) | RetryExhausted(_, _) => true
    case RequestError(connect, timeout) => connect || timeout
    case _ => false
  }

  predicate IsRetryable(e: ClientError) {
    match e
    case HttpError(status, _, _) => status >= 500 || status == 429
    case ConnectionError(_) | TimeoutError(_) => true
    case RequestError(connect, timeout) => connect || timeout
    case _ => false
  }

  /** The request failed before the server could answer it. */
  ghost predicate NoAnswer(e: ClientError) {
    e.ConnectionError? || e.TimeoutError? || (e.RequestError? && (e.isConnect || e.isTimeout))
  }

  /** The one connection error that is not retried is the one the loop never builds; the one
      other error that is retried is an HTTP status. */
  lemma ConnectionErrorsAreRetryable(e: ClientError)
    ensures IsConnectionError(e) <==> NoAnswer(e) || e.RetryExhausted?
    ensures IsRetryable(e) <==> NoAnswer(e) || (e.HttpError? && (e.status == 429 || 500 <= e.status))
    ensures IsConnectionError(e) && !IsRetryable(e) <==> e.RetryExhausted?
  {
  }

  // ----- responses

  /** The error body of an API response. */
  datatype ApiError = ApiError(code: string, message: string)

  /** `from_http`: five codes have an error of their own, whatever the status. */
  function FromHttp(status: u16, body: string, parsed: Option<ApiError>): ClientError {
    match parsed
    case Some(e) =>
      if e.code == "UNAUTHORIZED" || e.code == "FORBIDDEN" then AuthError(e.message)
      else if e.code == "NOT_FOUND" then NotFoundError(e.message)
      else if e.code == "VALIDATION_ERROR" then ValidationError(e.message)
      else if e.code == "ALREADY_EXISTS" then AlreadyExistsError(e.message)
      else HttpError(status, e.message, Some(e.code))
    case None => HttpError(status, body, None)
  }

  const OWN_ERROR: set<string> :=
    {"UNAUTHORIZED", "FORBIDDEN", "NOT_FOUND", "VALIDATION_ERROR", "ALREADY_EXISTS"}

  /** The five codes by name; any other code, or an unreadable body, keeps the status. */
  lemma ErrorByCode(status: u16, body: string, message: string, code: string)
    ensures FromHttp(status, body, Some(ApiError("UNAUTHORIZED", message))) == AuthError(message)
    ensures FromHttp(status, body, Some(ApiError("FORBIDDEN", message))) == AuthError(message)
    ensures FromHttp(status, body, Some(ApiError("NOT_FOUND", message))) == NotFoundError(message)
    ensures FromHttp(status, body, Some(ApiError("VALIDATION_ERROR", message))) == ValidationError(message)
    ensures FromHttp(status, body, Some(ApiError("ALREADY_EXISTS", message))) == AlreadyExistsError(message)
    ensures code !in OWN_ERROR ==> FromHttp(status, body, Some(ApiError(code, message))) == HttpError(status, message, Some(code))
    ensures FromHttp(status, body, None) == HttpError(status, body, None)
  {
  }

  /** A response is never taken for a connection error, and is retried by its status, unless
      its code has an error of its own. */
  lemma ResponseIsRetriedIff(status: u16, body: string, parsed: Option<ApiError>)
    ensures !IsConnectionError(FromHttp(status, body, parsed))
    ensures IsRetryable(FromHttp(status, body, parsed))
            <==> (status == 429 || status >= 500) && !(parsed.Some? && parsed.value.code in OWN_ERROR)
  {
  }

  // ----- the configuration

  datatype RetryConfig =
    RetryConfig(maxRetries: u32, baseDelay: Duration, maxDelay: Duration, retryStatusCodes: seq<u16>)

  /** `RetryConfig::default` */
  const DEFAULT_CONFIG: RetryConfig := RetryConfig(3, 100_000_000, 5_000_000_000, [429, 500, 502, 503, 504])

  /** What `retry_status_codes` is documented to say: these statuses trigger a retry. */
  ghost predicate ListDecides(c: RetryConfig) {
    forall status: u16, message, code ::
      IsRetryable(HttpError(status, message, code)) <==> status in c.retryStatusCodes
  }

  /** The code never reads the list, so it decides only if it happens to hold 429 and every
      status from 500 on, and nothing else. */
  lemma ListDecidesIff(c: RetryConfig)
    ensures ListDecides(c) <==> forall status: u16 :: status in c.retryStatusCodes <==> status == 429 || status >= 500
  {
    if ListDecides(c) {
      forall status: u16
        ensures status in c.retryStatusCodes <==> status == 429 || status >= 500
      {
        assert IsRetryable(HttpError(status, "", None)) <==> status in c.retryStatusCodes;
      }
    }
  }

  /** The default list does not: 501 is retried and not listed. */
  lemma DefaultListDoesNotDecide()
    ensures IsRetryable(HttpError(501, "", None)) && 501 !in DEFAULT_CONFIG.retryStatusCodes
    ensures !ListDecides(DEFAULT_CONFIG)
  {
    assert IsRetryable(HttpError(501, "", None));
  }

  // ----- backoff

  function Pow2(n: nat): (p: nat)
    ensures p > 0
  {
    if n == 0 then 1 else 2 * Pow2(n - 1)
  }

  lemma {:induction false} Pow2Monotone(m: nat, n: nat)
    requires m <= n
    ensures Pow2(m) <= Pow2(n)
    decreases n
  {
    if m < n {
      Pow2Monotone(m, n - 1);
    }
  }

  /** Doubling `m` times and then `n` times. */
  lemma {:induction false} Pow2Adds(m: nat, n: nat)
    ensures Pow2(m + n) == Pow2(m) * Pow2(n) && Pow2(0) == 1 && Pow2(1) == 2
  {
    if n > 0 {
      Pow2Adds(m, n - 1);
      assert Pow2(m) * (2 * Pow2(n - 1)) == 2 * (Pow2(m) * Pow2(n - 1));
    }
  }

  lemma Pow2At32()
    ensures Pow2(32) == U32_BOUND
  {
    assert Pow2(8) == 256;
    assert Pow2(16) == 0x1_0000;
    assert Pow2(24) == 0x100_0000;
    assert Pow2(32) == U32_BOUND;
  }

  /** `2u32.pow(attempt)`; `None` is a checked overflow. */
  function Multiplier(attempt: nat, checked: bool): Option<nat> {
    if Pow2(attempt) < U32_BOUND then Some(Pow2(attempt))
    else if checked then None
    else Some(Pow2(attempt) % U32_BOUND)
  }

  function Min(a: nat, b: nat): (m: nat)
    ensures m <= a && m <= b && (m == a || m == b)
  {
    if a <= b then a else b
  }

  /** `delay_for_attempt`: saturating product, capped. */
  function DelayForAttempt(c: RetryConfig, attempt: nat, checked: bool): Option<Duration> {
    match Multiplier(attempt, checked)
    case Some(m) => Some(Min(Min(c.baseDelay * m, MAX_DURATION), c.maxDelay))
    case None => None
  }

  lemma {:induction false} Pow2Wraps(attempt: nat)
    requires attempt >= 32
    ensures Pow2(attempt) >= U32_BOUND && Pow2(attempt) % U32_BOUND == 0
  {
    Pow2At32();
    if attempt > 32 {
      Pow2Wraps(attempt - 1);
      assert Pow2(attempt) == 2 * Pow2(attempt - 1);
    }
  }

  /** Up to attempt 31 the delay is the exact product under the cap, so saturation never
      shows. From attempt 32 on the multiplier overflows: a checked build stops, an unchecked
      one waits no time at all. */
  lemma DelayIsExact(c: RetryConfig, attempt: nat, checked: bool)
    ensures DelayForAttempt(c, attempt, checked)
            == if attempt < 32 then Some(Min(c.baseDelay * Pow2(attempt), c.maxDelay))
               else if checked then None else Some(0)
  {
    if attempt < 32 {
      Pow2At32();
      Pow2Monotone(attempt, 31);
      assert Pow2(32) == 2 * Pow2(31);
    } else {
      Pow2Wraps(attempt);
    }
  }

  /** The default configuration waits 200, 400 and 800 milliseconds; a sixth retry would
      wait the full five seconds. */
  lemma DefaultDelays(checked: bool)
    ensures DelayForAttempt(DEFAULT_CONFIG, 1, checked) == Some(200_000_000)
    ensures DelayForAttempt(DEFAULT_CONFIG, 2, checked) == Some(400_000_000)
    ensures DelayForAttempt(DEFAULT_CONFIG, 3, checked) == Some(800_000_000)
    ensures DelayForAttempt(DEFAULT_CONFIG, 5, checked) == Some(3_200_000_000)
    ensures DelayForAttempt(DEFAULT_CONFIG, 6, checked) == Some(5_000_000_000)
  {
    hide DelayForAttempt;
    forall n: nat | n <= 6
      ensures DelayForAttempt(DEFAULT_CONFIG, n, checked) == Some(Min(100_000_000 * Pow2(n), 5_000_000_000))
    {
      DelayIsExact(DEFAULT_CONFIG, n, checked);
    }
    assert Pow2(1) == 2 && Pow2(2) == 4 && Pow2(3) == 8 && Pow2(5) == 32 && Pow2(6) == 64;
  }

  /** No delay exceeds the cap. A later one is at least an earlier one exactly up to attempt
      31, where the multiplier is still exact, or where the earlier one is already zero. */
  lemma DelayGrows(c: RetryConfig, a: nat, b: nat, checked: bool)
    requires a <= b
    ensures DelayForAttempt(c, a, checked).Some? <==> !checked || a < 32
    ensures DelayForAttempt(c, a, checked).Some? ==> DelayForAttempt(c, a, checked).value <= c.maxDelay
    ensures DelayForAttempt(c, a, checked).Some? && DelayForAttempt(c, b, checked).Some?
            ==> (DelayForAttempt(c, a, checked).value <= DelayForAttempt(c, b, checked).value
                 <==> b < 32 || a >= 32 || c.baseDelay == 0 || c.maxDelay == 0)
  {
    hide DelayForAttempt;
    DelayIsExact(c, a, checked);
    DelayIsExact(c, b, checked);
    Pow2Monotone(a, b);
    MulGrows(c.baseDelay, Pow2(a), Pow2(b));
    MulGrows(c.baseDelay, 1, Pow2(a));
  }

  lemma MulGrows(x: nat, a: nat, b: nat)
    requires a <= b
    ensures x * a <= x * b
  {
  }

  // ----- the loop

  /** How a run ends: with the operation's result, or in the delay's overflow check. */
  datatype Ended<T> = Returned(result: Result<T, ClientError>) | Overflowed(attempt: nat)

  predicate Again<T>(r: Result<T, ClientError>) {
    r.Err? && IsRetryable(r.error)
  }

  /** The first `n` outcomes are retryable errors. */
  ghost predicate AllAgain<T>(outcome: nat -> Result<T, ClientError>, n: nat) {
    forall i: nat :: i < n ==> Again(outcome(i))
  }

  ghost function Sum(delays: seq<Duration>): nat {
    if delays == [] then 0 else Sum(delays[..|delays| - 1]) + delays[|delays| - 1]
  }

  lemma {:induction false} SumBound(delays: seq<Duration>, bound: nat)
    requires forall i :: 0 <= i < |delays| ==> delays[i] <= bound
    ensures Sum(delays) <= |delays| * bound
  {
    if delays != [] {
      SumBound(delays[..|delays| - 1], bound);
      assert |delays| * bound == (|delays| - 1) * bound + bound;
    }
  }

  /** The attempt counter after `calls` failed calls, a `u32` that wraps. A checked build
      has stopped in the delay long before it would. */
  function Attempts(calls: nat): u32 {
    calls % U32_BOUND
  }

  /** Call number `n`, counted from 0, is the last one if the run gets to it. */
  predicate StopsAt<T>(c: RetryConfig, checked: bool, outcome: nat -> Result<T, ClientError>, n: nat) {
    || !Again(outcome(n))
    || Attempts(n + 1) > c.maxRetries
    || DelayForAttempt(c, Attempts(n + 1), checked).None?
  }

  ghost predicate RunEnds<T>(c: RetryConfig, checked: bool, outcome: nat -> Result<T, ClientError>) {
    exists n: nat :: StopsAt(c, checked, outcome, n)
  }

  /** The wrapping counter never exceeds a limit exactly when that is the largest `u32`. */
  lemma LimitNeverExceededIff(limit: u32)
    ensures (forall calls: nat :: Attempts(calls) <= limit) <==> limit == U32_BOUND - 1
  {
    assert Attempts(U32_BOUND - 1) == U32_BOUND - 1;
  }

  /** Whether the limit ends every run. */
  predicate LimitEndsRuns(c: RetryConfig, checked: bool) {
    checked || c.maxRetries < U32_BOUND - 1
  }

  /** A run is endless exactly when the limit is the largest `u32`, the build has no overflow
      checks and no call ever ends it. */
  lemma RunEndsIff<T>(c: RetryConfig, checked: bool, outcome: nat -> Result<T, ClientError>)
    ensures RunEnds(c, checked, outcome) <==> LimitEndsRuns(c, checked) || exists n: nat :: !Again(outcome(n))
  {
    if LimitEndsRuns(c, checked) {
      var n: nat := if c.maxRetries < U32_BOUND - 1 then c.maxRetries else 31;
      DelayIsExact(c, Attempts(n + 1), checked);
      assert StopsAt(c, checked, outcome, n);
    } else if n: nat :| !Again(outcome(n)) {
      assert StopsAt(c, checked, outcome, n);
    } else if n: nat :| StopsAt(c, checked, outcome, n) {
      DelayIsExact(c, Attempts(n + 1), checked);
      assert false;
    }
  }

  /** Hence the limits that end the run of every operation. */
  lemma EveryRunEndsIff(c: RetryConfig, checked: bool)
    ensures LimitEndsRuns(c, checked)
            <==> forall outcome: nat -> Result<(), ClientError> :: RunEnds(c, checked, outcome)
  {
    forall outcome: nat -> Result<(), ClientError> | LimitEndsRuns(c, checked)
      ensures RunEnds(c, checked, outcome)
    {
      RunEndsIff(c, checked, outcome);
    }
    if !LimitEndsRuns(c, checked) {
      var down: nat -> Result<(), ClientError> := n => Err(ConnectionError(""));
      RunEndsIff(c, checked, down);
    }
  }

  /** How a run of `calls` calls and `slept` sleeps may end: with the first outcome that is
      not a retryable error, or that of call number `maxRetries + 1`, whichever comes first;
      or, exactly when a checked build fails retryably 32 times and may go on, in the 32nd
      delay. The largest limit of an unchecked build bounds nothing. */
  ghost predicate EndsAs<T>(c: RetryConfig, checked: bool, outcome: nat -> Result<T, ClientError>,
                            ended: Ended<T>, calls: nat, slept: nat) {
    && calls >= 1 && (LimitEndsRuns(c, checked) ==> calls <= c.maxRetries + 1)
    && AllAgain(outcome, calls - 1)
    && (ended.Returned? ==> ended.result == outcome(calls - 1) && slept == calls - 1)
    && (ended.Returned? && Again(outcome(calls - 1)) ==> LimitEndsRuns(c, checked) && calls == c.maxRetries + 1)
    && (ended.Overflowed? ==> ended.attempt == calls == 32 && slept == 31)
    && (ended.Overflowed? <==> checked && c.maxRetries >= 32 && AllAgain(outcome, 32))
  }

  /** `execute_with_retry`. The operation's outcomes are given by call number; the sleeps
      are recorded. */
  method ExecuteWithRetry<T>(c: RetryConfig, outcome: nat -> Result<T, ClientError>, checked: bool)
    returns (ended: Ended<T>, calls: nat, sleeps: seq<Duration>)
    requires RunEnds(c, checked, outcome)
    ensures EndsAs(c, checked, outcome, ended, calls, |sleeps|)
    ensures DelaysOf(c, sleeps, checked) && WellSpaced(c, sleeps)
  {
    ghost var end: nat :| StopsAt(c, checked, outcome, end);
    var attempts: u32 := 0;
    calls := 0;
    sleeps := [];
    assert SoFar(c, checked, outcome, end, 0, attempts);
    NoDelays(c, checked);
    hide *;
    while true
      invariant SoFar(c, checked, outcome, end, calls, attempts)
      invariant |sleeps| == calls <= end
      invariant DelaysOf(c, sleeps, checked)
      decreases end - calls
    {
      var result := outcome(calls);
      Turn(c, checked, outcome, end, calls, attempts);
      SleepsAreBounded(c, sleeps, checked);
      calls := calls + 1;
      if result.Ok? {
        ended := Returned(result);
        return;
      }
      attempts := (attempts + 1) % U32_BOUND;
      if !IsRetryable(result.error) || attempts > c.maxRetries {
        ended := Returned(result);
        return;
      }
      var delay := DelayForAttempt(c, attempts, checked);
      if delay.None? {
        ended := Overflowed(attempts);
        return;
      }
      DelaysSnoc(c, sleeps, delay.value, checked);
      sleeps := sleeps + [delay.value];
    }
  }

  /** The run has made `calls` calls and goes on; it does not pass call `end`. */
  ghost predicate SoFar<T>(c: RetryConfig, checked: bool, outcome: nat -> Result<T, ClientError>,
                           end: nat, calls: nat, attempts: u32) {
    && StopsAt(c, checked, outcome, end) && calls <= end
    && attempts == Attempts(calls) <= c.maxRetries
    && (LimitEndsRuns(c, checked) ==> attempts == calls && (checked ==> calls <= 31))
    && AllAgain(outcome, calls)
  }

  /** One turn of the loop, by its branches. */
  lemma Turn<T>(c: RetryConfig, checked: bool, outcome: nat -> Result<T, ClientError>,
                end: nat, calls: nat, attempts: u32)
    requires SoFar(c, checked, outcome, end, calls, attempts)
    ensures var result, next := outcome(calls), (attempts + 1) % U32_BOUND;
      && next == Attempts(calls + 1)
      && (Again(result) <==> result.Err? && IsRetryable(result.error))
      && (!Again(result) || next > c.maxRetries
          ==> EndsAs(c, checked, outcome, Returned(result), calls + 1, calls))
      && (Again(result) && next <= c.maxRetries && DelayForAttempt(c, next, checked).None?
          ==> EndsAs(c, checked, outcome, Overflowed(next), calls + 1, calls))
      && (Again(result) && next <= c.maxRetries && DelayForAttempt(c, next, checked).Some?
          ==> SoFar(c, checked, outcome, end, calls + 1, next))
  {
    hide DelayForAttempt;
    var next := (attempts + 1) % U32_BOUND;
    NextAttempt(calls);
    DelayIsExact(c, next, checked);
  }

  /** The sleeps are the delays of the attempts they follow. */
  ghost predicate DelaysOf(c: RetryConfig, sleeps: seq<Duration>, checked: bool) {
    forall i :: 0 <= i < |sleeps| ==> Some(sleeps[i]) == DelayForAttempt(c, Attempts(i + 1), checked)
  }

  /** Growing up to the 31st, none from the 32nd attempt on, under the cap one by one and
      in sum. */
  ghost predicate WellSpaced(c: RetryConfig, sleeps: seq<Duration>) {
    && (forall i, j :: 0 <= i <= j < |sleeps| && j < 31 ==> sleeps[i] <= sleeps[j])
    && (forall i :: 0 <= i < |sleeps| && Attempts(i + 1) >= 32 ==> sleeps[i] == 0)
    && (forall i :: 0 <= i < |sleeps| ==> sleeps[i] <= c.maxDelay)
    && Sum(sleeps) <= |sleeps| * c.maxDelay
  }

  lemma NoDelays(c: RetryConfig, checked: bool)
    ensures DelaysOf(c, [], checked)
  {
  }

  lemma DelaysSnoc(c: RetryConfig, sleeps: seq<Duration>, d: Duration, checked: bool)
    requires DelaysOf(c, sleeps, checked) && Some(d) == DelayForAttempt(c, Attempts(|sleeps| + 1), checked)
    ensures DelaysOf(c, sleeps + [d], checked)
  {
  }

  lemma NextAttempt(n: nat)
    ensures Attempts(n + 1) == (Attempts(n) + 1) % U32_BOUND
    ensures n < U32_BOUND ==> Attempts(n) == n
    ensures Attempts(n + 1) == if Attempts(n) < U32_BOUND - 1 then Attempts(n) + 1 else 0
  {
  }

  lemma SleepsAreBounded(c: RetryConfig, sleeps: seq<Duration>, checked: bool)
    requires DelaysOf(c, sleeps, checked)
    ensures WellSpaced(c, sleeps)
  {
    forall i, j | 0 <= i <= j < |sleeps| && j < 31
      ensures sleeps[i] <= sleeps[j]
    {
      DelayGrows(c, i + 1, j + 1, checked);
      assert Attempts(i + 1) == i + 1 && Attempts(j + 1) == j + 1;
    }
    forall i | 0 <= i < |sleeps| && Attempts(i + 1) >= 32
      ensures sleeps[i] == 0
    {
      DelayIsExact(c, Attempts(i + 1), checked);
    }
    SumBound(sleeps, c.maxDelay);
  }
}
