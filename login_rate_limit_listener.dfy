/** `LoginRateLimitListener`: a `RequestEvent` listener (default priority 0)
    that also limits registrations, and a `CheckPassportEvent` listener that
    takes one token from the login limiter for every POST to /api/login and
    throws `TooManyLoginAttemptsException` when refused. */
module LoginRateLimit {
  import opened Php
  import opened Http
  import opened RateLimiting
  import RegistrationRateLimit

  const LOGIN_PATH := "/api/login"
  const TEST_CLIENT := "test-client"
  const TOO_MANY_LOGIN_ATTEMPTS := "Too many login attempts. Please try again later."
  const TOO_MANY_REGISTRATIONS := "Too many registration attempts. Please try again later."

  predicate IsLogin(request: Request) {
    request.pathInfo == LOGIN_PATH && request.verb == "POST"
  }

  /** `$request->getClientIp() ?: 'test-client'`: the login key never looks
      at the body, so a `test_id` does not change it. */
  function LoginKey(clientIp: Option<string>): (key: string)
    ensures key != "" && key != "0"
    ensures clientIp.Some? && Truthy(Str(clientIp.value)) ==> key == clientIp.value
    ensures clientIp.None? || !Truthy(Str(clientIp.value)) ==> key == TEST_CLIENT
  {
    if clientIp.Some? && Truthy(Str(clientIp.value)) then clientIp.value else TEST_CLIENT
  }

  class LoginRateLimitListener {
    const loginLimiter: Limiter
    const registrationLimiter: Limiter
    const environment: string

    constructor (loginLimiter: Limiter, registrationLimiter: Limiter, environment: string)
      ensures this.loginLimiter == loginLimiter && this.registrationLimiter == registrationLimiter
      ensures this.environment == environment
    {
      this.loginLimiter := loginLimiter;
      this.registrationLimiter := registrationLimiter;
      this.environment := environment;
    }

    /** Registration limiting, keyed by `(test_id ?? ip) ?: 'test-client'`;
        unlike the other listener the 429 takes its retry time from the
        refused `consume(1)` itself. */
    method OnRequest(event: RequestEvent, now: int) returns (completion: Completion)
      modifies event, registrationLimiter
      ensures RateLimitingSkipped(environment, event.request.body) || !RegistrationRateLimit.IsRegistration(event.request) ==>
        completion == Normal && unchanged(event) && unchanged(registrationLimiter)
      ensures !RateLimitingSkipped(environment, event.request.body) && RegistrationRateLimit.IsRegistration(event.request) ==>
        match ClientIdentifier(event.request.body, event.request.clientIp, TEST_CLIENT)
        case None => completion == Raised(TypeError) && unchanged(event) && unchanged(registrationLimiter)
        case Some(key) =>
          var before := old(registrationLimiter.History(key));
          var limit := registrationLimiter.policy(before, Consumption(now, 1));
          && completion == Normal
          && registrationLimiter.log == old(registrationLimiter.log)[key := before + [Consumption(now, 1)]]
          && (limit.accepted ==> unchanged(event))
          && (!limit.accepted ==>
                && event.response == Some(Response(HTTP_TOO_MANY_REQUESTS, RetryLater(TOO_MANY_REGISTRATIONS, limit.retryAfter - now)))
                && event.propagationStopped)
    {
      var request := event.request;
      if RateLimitingSkipped(environment, request.body) {
        return Normal;
      }
      if request.pathInfo == RegistrationRateLimit.REGISTER_PATH && request.verb == "POST" {
        var identifier := ClientIdentifier(request.body, request.clientIp, TEST_CLIENT);
        if identifier.None? {
          return Raised(TypeError);
        }
        var limit := registrationLimiter.Consume(identifier.value, 1, now);
        if !limit.accepted {
          event.SetResponse(Response(HTTP_TOO_MANY_REQUESTS, RetryLater(TOO_MANY_REGISTRATIONS, limit.retryAfter - now)));
        }
      }
      return Normal;
    }

    /** `current` is `$requestStack->getCurrentRequest()`. */
    method OnCheckPassport(current: Option<Request>, now: int) returns (completion: Completion)
      modifies loginLimiter
      ensures current.None? || RateLimitingSkipped(environment, current.value.body) || !IsLogin(current.value) ==>
        completion == Normal && unchanged(loginLimiter)
      ensures current.Some? && !RateLimitingSkipped(environment, current.value.body) && IsLogin(current.value) ==>
        var key := LoginKey(current.value.clientIp);
        var before := old(loginLimiter.History(key));
        var limit := loginLimiter.policy(before, Consumption(now, 1));
        && loginLimiter.log == old(loginLimiter.log)[key := before + [Consumption(now, 1)]]
        && completion == if limit.accepted then Normal else Raised(TooManyLoginAttempts(TOO_MANY_LOGIN_ATTEMPTS))
    {
      if current.None? {
        return Normal;
      }
      var request := current.value;
      if RateLimitingSkipped(environment, request.body) {
        return Normal;
      }
      if request.pathInfo == LOGIN_PATH && request.verb == "POST" {
        var limit := loginLimiter.Consume(LoginKey(request.clientIp), 1, now);
        if !limit.accepted {
          return Raised(TooManyLoginAttempts(TOO_MANY_LOGIN_ATTEMPTS));
        }
      }
      return Normal;
    }
  }
}
