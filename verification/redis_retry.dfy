/**
 * The reconnect policy (`retry_strategy`) given to the Redis client: stop
 * on a refused connection, after an hour of retrying or after ten attempts,
 * otherwise wait 100 ms per attempt, at most 3000 ms.
 */
module RedisRetry {
  import opened Wrappers

  /** The error that ended the last connection attempt. */
  datatype ConnectionError = ConnectionError(code: string)

  /** The `options` argument: last error, time spent retrying (ms) and attempt number. */
  datatype RetryOptions = RetryOptions(error: Option<ConnectionError>, totalRetryTime: nat, attempt: nat)

  /** An Error value (the client gives up with it), `undefined` (give up), or a delay in ms. */
  datatype RetryDecision = ErrorValue(message: string) | Undefined | DelayMs(ms: nat)

  const MaxRetryTimeMs: nat := 1000 * 60 * 60
  const MaxAttempts: nat := 10
  const DelayStepMs: nat := 100
  const DelayCapMs: nat := 3000

  predicate Refused(o: RetryOptions) {
    o.error.Some? && o.error.value.code == "ECONNREFUSED"
  }

  function Min(a: nat, b: nat): nat {
    if a <= b then a else b
  }

  /**
   * The refused-connection check wins over every other; then the retry-time
   * limit; then the attempt limit; only then is a delay returned. Because
   * the attempt limit comes first, the 3000 ms cap is never reached.
   */
  function RetryStrategy(o: RetryOptions): (d: RetryDecision)
    ensures d == ErrorValue("Redis server connection refused") <==> Refused(o)
    ensures d == ErrorValue("Retry time exhausted") <==> !Refused(o) && o.totalRetryTime > 3600000
    ensures d.ErrorValue? <==> Refused(o) || o.totalRetryTime > 3600000
    ensures d == Undefined <==> !Refused(o) && o.totalRetryTime <= 3600000 && o.attempt > 10
    ensures d.DelayMs? ==> d.ms == o.attempt * 100 && d.ms <= 1000 && d.ms <= DelayCapMs
    ensures d.DelayMs? && o.attempt >= 1 ==> d.ms > 0
  {
    if Refused(o) then ErrorValue("Redis server connection refused")
    else if o.totalRetryTime > MaxRetryTimeMs then ErrorValue("Retry time exhausted")
    else if o.attempt > MaxAttempts then Undefined
    else DelayMs(Min(o.attempt * DelayStepMs, DelayCapMs))
  }

  /** A later attempt never waits less than an earlier one. */
  lemma DelayNonDecreasing(o1: RetryOptions, o2: RetryOptions)
    requires RetryStrategy(o1).DelayMs? && RetryStrategy(o2).DelayMs?
    requires o1.attempt <= o2.attempt
    ensures RetryStrategy(o1).ms <= RetryStrategy(o2).ms
  {
  }
}
