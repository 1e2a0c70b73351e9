/** The rate limiters the listeners consult (Symfony's `RateLimiterFactory`).
    Their policy is configured outside the core, so it is kept abstract: a
    limiter answers each `consume` from the history of requests made for
    the same key, and remembers every request. */
module RateLimiting {

  /** One call of `consume($tokens)` at time `time`. */
  datatype Consumption = Consumption(time: int, tokens: nat)

  /** `RateLimit`: whether the tokens were granted, and the timestamp
      `getRetryAfter()` reports. */
  datatype RateLimit = RateLimit(accepted: bool, retryAfter: int)

  /** The number of tokens asked for over a history. */
  function Requested(history: seq<Consumption>): nat
    decreases |history|
  {
    if history == [] then 0 else Requested(history[..|history| - 1]) + history[|history| - 1].tokens
  }

  /** Asking for `tokens` more adds exactly `tokens` to the count; in
      particular `consume(0)` asks for nothing. */
  lemma RequestedAppend(history: seq<Consumption>, c: Consumption)
    ensures Requested(history + [c]) == Requested(history) + c.tokens
  {
    assert (history + [c])[..|history|] == history;
  }

  class Limiter {
    /** The configured policy: the answer to a request given all earlier
        requests for the same key. */
    const policy: (seq<Consumption>, Consumption) -> RateLimit
    var log: map<string, seq<Consumption>>

    constructor (policy: (seq<Consumption>, Consumption) -> RateLimit)
      ensures this.policy == policy && log == map[]
    {
      this.policy := policy;
      log := map[];
    }

    function History(key: string): seq<Consumption>
      reads this
    {
      if key in log then log[key] else []
    }

    /** `$factory->create($key)->consume($tokens)` */
    method Consume(key: string, tokens: nat, now: int) returns (limit: RateLimit)
      modifies this
      ensures limit == policy(old(History(key)), Consumption(now, tokens))
      ensures log == old(log)[key := old(History(key)) + [Consumption(now, tokens)]]
    {
      limit := policy(History(key), Consumption(now, tokens));
      log := log[key := History(key) + [Consumption(now, tokens)]];
    }
  }
}
