/** `ApiTokenAuthenticator`: reads a bearer token from the `Authorization`
    header and checks it against the token table. Authentication only reads
    the table; failures become a message that the failure hook turns into
    a 401. */
module TokenAuthentication {
  import opened Php
  import opened Http
  import opened Accounts
  import opened ApiTokens

  const BEARER_PREFIX := "Bearer "
  const NO_TOKEN := "No API token provided"
  const INVALID_FORMAT := "Invalid token format"
  const INVALID_OR_EXPIRED := "Invalid or expired token"
  const AUTHENTICATION_FAILED := "Authentication failed"

  /** A `SelfValidatingPassport` whose badge carries a user identifier. */
  datatype Passport = Passport(userIdentifier: string)

  datatype AuthResult = Authenticated(passport: Passport) | Failed(message: string)

  /** `supports`: the header is present, whatever its value. */
  predicate Supports(request: Request) {
    request.authorization.Some?
  }

  /** Drops one leading "Bearer " (`substr($h, 7)`) or keeps the header whole. */
  function ExtractToken(header: string): (token: string)
    ensures StartsWith(header, BEARER_PREFIX) ==> BEARER_PREFIX + token == header
    ensures !StartsWith(header, BEARER_PREFIX) ==> token == header
  {
    if StartsWith(header, BEARER_PREFIX) then header[|BEARER_PREFIX|..] else header
  }

  /** Only one prefix is stripped: a token that itself begins with "Bearer "
      comes back whole. */
  lemma ExtractAfterPrefix(token: string)
    ensures ExtractToken(BEARER_PREFIX + token) == token
  {
    assert (BEARER_PREFIX + token)[..|BEARER_PREFIX|] == BEARER_PREFIX;
  }

  /** `validateToken`: the owner's identifier for a valid token. */
  function ValidateToken(table: TokenTable, token: string, now: int): (r: Option<string>)
    requires WellKeyed(table)
    ensures r.Some? <==> token in table && table[token].expiresAt > now
    ensures r.Some? ==> r.value == UserIdentifier(table[token].user)
  {
    match FindValidToken(table, token, now)
    case Some(row) => Some(UserIdentifier(row.user))
    case None => None
  }

  /** `authenticate` */
  function Authenticate(request: Request, table: TokenTable, now: int): (r: AuthResult)
    requires WellKeyed(table)
    ensures request.authorization.None? ==> r == Failed(NO_TOKEN)
    ensures request.authorization.Some? && !Truthy(Str(ExtractToken(request.authorization.value))) ==>
      r == Failed(INVALID_FORMAT)
    ensures r.Authenticated? <==>
      && request.authorization.Some?
      && var token := ExtractToken(request.authorization.value);
         Truthy(Str(token)) && token in table && table[token].expiresAt > now
    ensures r.Authenticated? ==>
      var row := table[ExtractToken(request.authorization.value)];
      r.passport == Passport(UserIdentifier(row.user))
    ensures request.authorization.Some? && Truthy(Str(ExtractToken(request.authorization.value))) && !r.Authenticated? ==>
      r == Failed(INVALID_OR_EXPIRED)
    ensures r.Failed? ==> r.message in {NO_TOKEN, INVALID_FORMAT, INVALID_OR_EXPIRED}
  {
    match request.authorization
    case None => Failed(NO_TOKEN)
    case Some(header) =>
      var token := ExtractToken(header);
      if !Truthy(Str(token)) then Failed(INVALID_FORMAT)
      else
        match ValidateToken(table, token, now)
        case None => Failed(INVALID_OR_EXPIRED)
        case Some(userIdentifier) => Authenticated(Passport(userIdentifier))
  }

  /** An empty token (PHP's `empty`: "" or "0") is refused without looking at
      the table: the answer is the same for every table and every time. */
  lemma MalformedTokenIgnoresStore(request: Request, t1: TokenTable, t2: TokenTable, now1: int, now2: int)
    requires WellKeyed(t1) && WellKeyed(t2)
    requires request.authorization.Some?
    requires ExtractToken(request.authorization.value) in {"", "0"}
    ensures Authenticate(request, t1, now1) == Authenticate(request, t2, now2) == Failed(INVALID_FORMAT)
  {
  }

  /** `onAuthenticationFailure`: always 401 with the failure's message. */
  function OnAuthenticationFailure(message: string): (r: Response)
    ensures r.status == HTTP_UNAUTHORIZED
    ensures r.payload == ErrorWithMessage(AUTHENTICATION_FAILED, message)
  {
    Response(HTTP_UNAUTHORIZED, ErrorWithMessage(AUTHENTICATION_FAILED, message))
  }

  /** What the authenticator contributes for one request: nothing when it
      does not support the request or on success (`onAuthenticationSuccess`
      returns null, so the request goes on), a 401 on failure. */
  function Respond(request: Request, table: TokenTable, now: int): (r: Option<Response>)
    requires WellKeyed(table)
    ensures r.None? <==> !Supports(request) || Authenticate(request, table, now).Authenticated?
    ensures r.Some? ==>
      && r.value.status == HTTP_UNAUTHORIZED
      && r.value.payload == ErrorWithMessage(AUTHENTICATION_FAILED, Authenticate(request, table, now).message)
  {
    if !Supports(request) then None
    else
      match Authenticate(request, table, now)
      case Authenticated(_) => None
      case Failed(message) => Some(OnAuthenticationFailure(message))
  }

  /** A token is accepted at `now` and refused from the instant the clock
      reaches its expiry onwards, with nothing else changed. */
  lemma AcceptanceFlipsAtExpiry(request: Request, table: TokenTable, now: int, later: int)
    requires WellKeyed(table)
    requires Authenticate(request, table, now).Authenticated?
    requires later >= table[ExtractToken(request.authorization.value)].expiresAt
    ensures var row := table[ExtractToken(request.authorization.value)];
      && now < row.expiresAt
      && Authenticate(request, table, row.expiresAt) == Failed(INVALID_OR_EXPIRED)
    ensures Authenticate(request, table, later) == Failed(INVALID_OR_EXPIRED)
  {
  }
}
