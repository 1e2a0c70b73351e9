/** How the kernel runs the two `RequestEvent` listeners on one request: by
    decreasing priority (the registration listener declares 10, the login
    listener's `onRequest` the default 0), stopping as soon as one of them
    sets a response or throws. */
module RequestDispatch {
  import opened Php
  import opened Http
  import opened RateLimiting
  import opened RegistrationRateLimit
  import opened LoginRateLimit

  /** Both listeners draw on the same registration limiter. When a POST to
      /api/register names its client by a string `test_id` (the ghost `t`)
      and is not exempt, an accepted request is counted twice under that
      key (two tokens), a request refused by the first listener once. */
  method DispatchRequest(event: RequestEvent, registration: RegistrationRateLimitListener,
                         login: LoginRateLimitListener, now: int, ghost t: string) returns (completion: Completion)
    requires registration.registrationLimiter == login.registrationLimiter
    requires registration.environment == login.environment
    requires event.response == None && !event.propagationStopped
    modifies event, registration.registrationLimiter
    ensures
      && IsRegistration(event.request)
      && !RateLimitingSkipped(registration.environment, event.request.body)
      && Lookup(event.request.body, "test_id") == Str(t) && Truthy(Str(t))
      ==>
      var limiter := registration.registrationLimiter;
      var before := old(limiter.History(t));
      var first := limiter.policy(before, Consumption(now, 1));
      && completion == Normal
      && (first.accepted ==>
            && limiter.History(t) == before + [Consumption(now, 1), Consumption(now, 1)]
            && (event.response == None <==> limiter.policy(before + [Consumption(now, 1)], Consumption(now, 1)).accepted))
      && (!first.accepted ==>
            && limiter.History(t) == before + [Consumption(now, 1), Consumption(now, 0)]
            && event.response.Some? && event.response.value.status == HTTP_TOO_MANY_REQUESTS)
  {
    var limiter := registration.registrationLimiter;
    ghost var before := limiter.History(t);
    ghost var eligible := && IsRegistration(event.request)
                          && !RateLimitingSkipped(registration.environment, event.request.body)
                          && Lookup(event.request.body, "test_id") == Str(t) && Truthy(Str(t));
    ghost var one, none := Consumption(now, 1), Consumption(now, 0);
    if eligible {
      assert ClientIdentifier(event.request.body, event.request.clientIp, RegistrationRateLimit.UNKNOWN_CLIENT) == Some(t);
      assert ClientIdentifier(event.request.body, event.request.clientIp, TEST_CLIENT) == Some(t);
    }
    completion := registration.OnRequest(event, now);
    if completion.Raised? || event.propagationStopped {
      if eligible {
        assert limiter.History(t) == before + [one] + [none];
        assert before + [one] + [none] == before + [one, none];
      }
      return;
    }
    ghost var middle := limiter.History(t);
    if eligible {
      assert middle == before + [one];
    }
    completion := login.OnRequest(event, now);
    if eligible {
      assert limiter.History(t) == middle + [one];
      assert before + [one] + [one] == before + [one, one];
    }
  }

  /** What the two histories of `DispatchRequest` ask of the limiter: an
      accepted registration asks for two tokens, a refused one for one. */
  lemma {:induction false} TokensPerRegistration(before: seq<Consumption>, now: int)
    ensures Requested(before + [Consumption(now, 1), Consumption(now, 1)]) == Requested(before) + 2
    ensures Requested(before + [Consumption(now, 1), Consumption(now, 0)]) == Requested(before) + 1
  {
    var one, none := Consumption(now, 1), Consumption(now, 0);
    RequestedAppend(before, one);
    RequestedAppend(before + [one], one);
    RequestedAppend(before + [one], none);
    assert before + [one] + [one] == before + [one, one];
    assert before + [one] + [none] == before + [one, none];
  }
}
