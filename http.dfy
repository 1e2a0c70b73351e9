/** The HTTP vocabulary shared by the handlers and listeners: the parts of a
    Symfony `Request` they read, the JSON responses they build, the
    exceptions they raise, and the kernel's `RequestEvent`. */
module Http {
  import opened Php

  const HTTP_OK := 200
  const HTTP_CREATED := 201
  const HTTP_BAD_REQUEST := 400
  const HTTP_UNAUTHORIZED := 401
  const HTTP_CONFLICT := 409
  const HTTP_TOO_MANY_REQUESTS := 429

  /** The parts of a request the core reads. `verb` is the method, already upper-cased,
      as `Request::getMethod()` returns it; `authorization` is the
      `Authorization` header, if present. */
  datatype Request = Request(
    verb: string,
    pathInfo: string,
    body: Body,
    clientIp: Option<string>,
    authorization: Option<string>)

  /** The JSON objects the core answers with. */
  datatype Payload =
    | ErrorWithMessage(error: string, message: string)           // {"error", "message"}
    | ErrorOnly(error: string)                                   // {"error"}
    | RetryLater(error: string, retryAfter: int)                 // {"error", "retry_after"}
    | Registered(id: nat)                                        // {"success": true, "id"}
    | LoggedIn(token: string, userId: nat, email: string, roles: seq<string>)
                                                                 // {"success": true, "token", "user": {"id", "email", "roles"}}

  datatype Response = Response(status: int, payload: Payload)

  /** Exceptions that leave a handler. */
  datatype Exception =
    | TypeError                         // a value of the wrong type reached a typed parameter
    | UniqueConstraintViolation         // flush() hit a unique index
    | TooManyLoginAttempts(message: string)

  /** How a handler that returns a response ends. */
  datatype Outcome = Respond(response: Response) | Throw(exception: Exception)

  /** How a handler that returns nothing ends. */
  datatype Completion = Normal | Raised(exception: Exception)

  /** `$kernel->getEnvironment() === 'test' && !($data['enable_rate_limiting'] ?? false)`:
      every rate-limiting step of the core is skipped in the test environment
      unless the request body asks for it with a truthy flag. */
  predicate RateLimitingSkipped(environment: string, body: Body) {
    environment == "test" && !Truthy(Coalesce(Lookup(body, "enable_rate_limiting"), Bool(false)))
  }

  /** `($data['test_id'] ?? $request->getClientIp()) ?: $fallback`, passed on to a
      `string` parameter. `??` binds tighter than `?:`, so a null, "" or "0"
      from either source falls back to the constant. `None` is the TypeError
      raised when `test_id` holds an array. */
  function ClientIdentifier(body: Body, clientIp: Option<string>, fallback: string): (r: Option<string>)
    requires fallback != "" && fallback != "0"
    ensures r.None? <==> Lookup(body, "test_id").Arr? && Lookup(body, "test_id").size > 0
    ensures r.Some? ==> r.value != "" && r.value != "0"
    ensures Lookup(body, "test_id").Str? && Truthy(Lookup(body, "test_id")) ==> r == Some(Lookup(body, "test_id").s)
    ensures Lookup(body, "test_id") == Null && clientIp.Some? && Truthy(Str(clientIp.value)) ==> r == clientIp
    ensures !Truthy(Coalesce(Lookup(body, "test_id"), NullableString(clientIp))) ==> r == Some(fallback)
  {
    var chosen := Elvis(Coalesce(Lookup(body, "test_id"), NullableString(clientIp)), Str(fallback));
    TruthyStringArgument(chosen);
    StringArgument(chosen)
  }

  /** Symfony's `RequestEvent`: a listener may set the response, which also
      stops the event from reaching listeners of lower priority. */
  class RequestEvent {
    const request: Request
    var response: Option<Response>
    var propagationStopped: bool

    constructor (request: Request)
      ensures this.request == request && response == None && !propagationStopped
    {
      this.request := request;
      response := None;
      propagationStopped := false;
    }

    method SetResponse(r: Response)
      modifies this
      ensures response == Some(r) && propagationStopped
    {
      response := Some(r);
      propagationStopped := true;
    }
  }
}
