/** `RegistrationRateLimitListener` (a `RequestEvent` listener of priority
    10): every POST to /api/register takes one token from the registration
    limiter of its client, and a refused request is answered 429. */
module RegistrationRateLimit {
  import opened Php
  import opened Http
  import opened RateLimiting

  const REGISTER_PATH := "/api/register"
  const TOO_MANY_REGISTRATIONS := "Too many registration attempts. Please try again later."
  const UNKNOWN_CLIENT := "unknown"

  predicate IsRegistration(request: Request) {
    request.pathInfo == REGISTER_PATH && request.verb == "POST"
  }

  class RegistrationRateLimitListener {
    const registrationLimiter: Limiter
    const environment: string

    constructor (registrationLimiter: Limiter, environment: string)
      ensures this.registrationLimiter == registrationLimiter && this.environment == environment
    {
      this.registrationLimiter := registrationLimiter;
      this.environment := environment;
    }

    /** Other requests, and exempt test requests, pass untouched. Otherwise
        one token is consumed under `(test_id ?? ip) ?: 'unknown'`; on refusal
        a second `consume(0)`, which asks for no token, supplies the
        retry time of the 429. */
    method OnRequest(event: RequestEvent, now: int) returns (completion: Completion)
      modifies event, registrationLimiter
      ensures !IsRegistration(event.request) || RateLimitingSkipped(environment, event.request.body) ==>
        completion == Normal && unchanged(event) && unchanged(registrationLimiter)
      ensures IsRegistration(event.request) && !RateLimitingSkipped(environment, event.request.body) ==>
        match ClientIdentifier(event.request.body, event.request.clientIp, UNKNOWN_CLIENT)
        case None => completion == Raised(TypeError) && unchanged(event) && unchanged(registrationLimiter)
        case Some(key) =>
          var before := old(registrationLimiter.History(key));
          var first := registrationLimiter.policy(before, Consumption(now, 1));
          && completion == Normal
          && (first.accepted ==>
                && registrationLimiter.log == old(registrationLimiter.log)[key := before + [Consumption(now, 1)]]
                && unchanged(event))
          && (!first.accepted ==>
                var retry := registrationLimiter.policy(before + [Consumption(now, 1)], Consumption(now, 0));
                && registrationLimiter.log == old(registrationLimiter.log)[key := before + [Consumption(now, 1), Consumption(now, 0)]]
                && event.response == Some(Response(HTTP_TOO_MANY_REQUESTS, RetryLater(TOO_MANY_REGISTRATIONS, retry.retryAfter - now)))
                && event.propagationStopped)
    {
      var request := event.request;
      if request.pathInfo == REGISTER_PATH && request.verb == "POST" {
        if RateLimitingSkipped(environment, request.body) {
          return Normal;
        }
        var identifier := ClientIdentifier(request.body, request.clientIp, UNKNOWN_CLIENT);
        if identifier.None? {
          return Raised(TypeError);
        }
        ghost var before := registrationLimiter.History(identifier.value);
        var limit := registrationLimiter.Consume(identifier.value, 1, now);
        if !limit.accepted {
          assert registrationLimiter.History(identifier.value) == before + [Consumption(now, 1)];
          assert before + [Consumption(now, 1)] + [Consumption(now, 0)] == before + [Consumption(now, 1), Consumption(now, 0)];
          var retry := registrationLimiter.Consume(identifier.value, 0, now);
          event.SetResponse(Response(HTTP_TOO_MANY_REQUESTS, RetryLater(TOO_MANY_REGISTRATIONS, retry.retryAfter - now)));
        }
      }
      return Normal;
    }
  }
}
