/** The login failure handler: a fixed-window lockout kept in the
    `login_attempts` table, one row per client identifier holding
    `(attempts, last_attempt)`. Time is in whole seconds, as MySQL's
    DATETIME stores it; `now` stands for every `NOW()` of one call. */
module LoginFailures {
  import opened Php
  import opened Http

  const MAX_ATTEMPTS := 3
  const LOCKOUT_MINUTES := 5
  const LOCKOUT_SECONDS := LOCKOUT_MINUTES * 60
  const INVALID_CREDENTIALS := "Invalid credentials"
  const TOO_MANY_LOGIN_ATTEMPTS := "Too many login attempts. Please try again later."
  const UNKNOWN_CLIENT := "unknown"

  datatype AttemptRow = AttemptRow(attempts: int, lastAttempt: int)

  /** The `login_attempts` table, keyed by its unique `identifier` column. */
  type AttemptTable = map<string, AttemptRow>

  /** `last_attempt > DATE_SUB(NOW(), INTERVAL 5 MINUTE)` */
  predicate InWindow(row: AttemptRow, now: int) {
    row.lastAttempt > now - LOCKOUT_SECONDS
  }

  predicate HasLiveRow(table: AttemptTable, identifier: string, now: int) {
    identifier in table && InWindow(table[identifier], now)
  }

  /** `getAttempts`: the stored count while the row is inside the window, 0
      for a stale or missing row. */
  function LiveAttempts(table: AttemptTable, identifier: string, now: int): (n: int)
    ensures HasLiveRow(table, identifier, now) ==> n == table[identifier].attempts
    ensures !HasLiveRow(table, identifier, now) ==> n == 0
    ensures n > 0 ==> RetryAfter(table, identifier, now) > 0
  {
    if HasLiveRow(table, identifier, now) then table[identifier].attempts else 0
  }

  /** `getRetryAfter`: `max(0, TIMESTAMPDIFF(SECOND, NOW(), last_attempt + 5 min))`,
      or 0 without a row. The query does not filter on the window; the
      clamp makes the answer positive exactly while the row is live. */
  function RetryAfter(table: AttemptTable, identifier: string, now: int): (seconds: int)
    ensures seconds >= 0
    ensures seconds > 0 <==> HasLiveRow(table, identifier, now)
    ensures HasLiveRow(table, identifier, now) ==> seconds == table[identifier].lastAttempt + LOCKOUT_SECONDS - now
    ensures identifier in table && table[identifier].lastAttempt <= now ==> seconds <= LOCKOUT_SECONDS
  {
    if identifier in table then
      var diff := table[identifier].lastAttempt + LOCKOUT_SECONDS - now;
      if diff > 0 then diff else 0
    else 0
  }

  /** `incrementAttempts` as a change of the table: the identifier's row ends
      with one more attempt than were live, stamped `now`; no other row moves. */
  function Recorded(table: AttemptTable, identifier: string, now: int): (r: AttemptTable)
    ensures r.Keys == table.Keys + {identifier}
    ensures r[identifier] == AttemptRow(LiveAttempts(table, identifier, now) + 1, now)
    ensures forall other :: other in table && other != identifier ==> r[other] == table[other]
  {
    if HasLiveRow(table, identifier, now) then
      table[identifier := AttemptRow(table[identifier].attempts + 1, now)]
    else
      table[identifier := AttemptRow(1, now)]
  }

  function InvalidCredentials(message: string): Response {
    Response(HTTP_UNAUTHORIZED, ErrorWithMessage(INVALID_CREDENTIALS, message))
  }

  datatype FailureResult = FailureResult(outcome: Outcome, table: AttemptTable)

  /** `onAuthenticationFailure` as a function of the table: skip in the test
      environment, otherwise answer 429 without touching the table once 3
      failures are live, else record the failure and answer 401. */
  function OnFailure(environment: string, table: AttemptTable, request: Request, message: string, now: int): (r: FailureResult)
    ensures RateLimitingSkipped(environment, request.body) ==>
      r == FailureResult(Respond(InvalidCredentials(message)), table)
    ensures !RateLimitingSkipped(environment, request.body) ==>
      match ClientIdentifier(request.body, request.clientIp, UNKNOWN_CLIENT)
      case None => r == FailureResult(Throw(TypeError), table)
      case Some(id) =>
        && (LiveAttempts(table, id, now) >= MAX_ATTEMPTS ==>
              && r.table == table
              && r.outcome == Respond(Response(HTTP_TOO_MANY_REQUESTS, RetryLater(TOO_MANY_LOGIN_ATTEMPTS, RetryAfter(table, id, now))))
              && RetryAfter(table, id, now) > 0)
        && (LiveAttempts(table, id, now) < MAX_ATTEMPTS ==>
              r == FailureResult(Respond(InvalidCredentials(message)), Recorded(table, id, now)))
  {
    if RateLimitingSkipped(environment, request.body) then
      FailureResult(Respond(InvalidCredentials(message)), table)
    else
      match ClientIdentifier(request.body, request.clientIp, UNKNOWN_CLIENT)
      case None => FailureResult(Throw(TypeError), table)
      case Some(id) =>
        if LiveAttempts(table, id, now) >= MAX_ATTEMPTS then
          FailureResult(Respond(Response(HTTP_TOO_MANY_REQUESTS, RetryLater(TOO_MANY_LOGIN_ATTEMPTS, RetryAfter(table, id, now)))), table)
        else
          FailureResult(Respond(InvalidCredentials(message)), Recorded(table, id, now))
  }

  /** The handler service; `loginAttempts` is the table it reads and writes
      through its database connection. */
  class AuthenticationFailureHandler {
    const environment: string
    var loginAttempts: AttemptTable

    constructor (environment: string, loginAttempts: AttemptTable)
      ensures this.environment == environment && this.loginAttempts == loginAttempts
    {
      this.environment := environment;
      this.loginAttempts := loginAttempts;
    }

    method OnAuthenticationFailure(request: Request, message: string, now: int) returns (outcome: Outcome)
      modifies this
      ensures FailureResult(outcome, loginAttempts) == OnFailure(environment, old(loginAttempts), request, message, now)
    {
      if RateLimitingSkipped(environment, request.body) {
        return Respond(InvalidCredentials(message));
      }
      var identifier := ClientIdentifier(request.body, request.clientIp, UNKNOWN_CLIENT);
      if identifier.None? {
        return Throw(TypeError);
      }
      var attempts := LiveAttempts(loginAttempts, identifier.value, now);
      if attempts >= MAX_ATTEMPTS {
        var retryAfter := RetryAfter(loginAttempts, identifier.value, now);
        return Respond(Response(HTTP_TOO_MANY_REQUESTS, RetryLater(TOO_MANY_LOGIN_ATTEMPTS, retryAfter)));
      }
      IncrementAttempts(identifier.value, now);
      return Respond(InvalidCredentials(message));
    }

    /** The two statements of `incrementAttempts`: a conditional UPDATE of a
        live row, then, when it affected no row, an INSERT whose
        ON DUPLICATE KEY branch resets a stale row. */
    method IncrementAttempts(identifier: string, now: int)
      modifies this
      ensures loginAttempts == Recorded(old(loginAttempts), identifier, now)
    {
      var affectedRows := 0;
      if identifier in loginAttempts && InWindow(loginAttempts[identifier], now) {
        loginAttempts := loginAttempts[identifier := AttemptRow(loginAttempts[identifier].attempts + 1, now)];
        affectedRows := 1;
      }
      if affectedRows == 0 {
        loginAttempts := loginAttempts[identifier := AttemptRow(1, now)];
      }
    }
  }

  /** A client that is not exempt and whose identifier has no live row is
      answered 401 three times and 429 the fourth time, provided each failure
      comes less than five minutes after the previous one; the refused fourth
      attempt leaves the table as the third left it. */
  lemma FourthFailureIsRefused(environment: string, table: AttemptTable, request: Request, message: string,
                               id: string, t1: int, t2: int, t3: int, t4: int)
    requires !RateLimitingSkipped(environment, request.body)
    requires ClientIdentifier(request.body, request.clientIp, UNKNOWN_CLIENT) == Some(id)
    requires !HasLiveRow(table, id, t1)
    requires t2 - t1 < LOCKOUT_SECONDS && t3 - t2 < LOCKOUT_SECONDS && t4 - t3 < LOCKOUT_SECONDS
    ensures
      var r1 := OnFailure(environment, table, request, message, t1);
      var r2 := OnFailure(environment, r1.table, request, message, t2);
      var r3 := OnFailure(environment, r2.table, request, message, t3);
      var r4 := OnFailure(environment, r3.table, request, message, t4);
      && r1.outcome == Respond(InvalidCredentials(message))
      && r2.outcome == Respond(InvalidCredentials(message))
      && r3.outcome == Respond(InvalidCredentials(message))
      && r3.table[id] == AttemptRow(3, t3)
      && r4.outcome == Respond(Response(HTTP_TOO_MANY_REQUESTS, RetryLater(TOO_MANY_LOGIN_ATTEMPTS, t3 + LOCKOUT_SECONDS - t4)))
      && t3 + LOCKOUT_SECONDS - t4 > 0
      && r4.table == r3.table
  {
    var r1 := OnFailure(environment, table, request, message, t1);
    assert r1.table[id] == AttemptRow(1, t1);
    var r2 := OnFailure(environment, r1.table, request, message, t2);
    assert r2.table[id] == AttemptRow(2, t2);
    var r3 := OnFailure(environment, r2.table, request, message, t3);
    assert r3.table[id] == AttemptRow(3, t3);
  }

  /** Once `retry_after` has run down to 0 the lockout is over: the next
      failure is counted as the first one again and answered 401. */
  lemma LockoutExpires(environment: string, table: AttemptTable, request: Request, message: string, id: string, now: int)
    requires !RateLimitingSkipped(environment, request.body)
    requires ClientIdentifier(request.body, request.clientIp, UNKNOWN_CLIENT) == Some(id)
    requires RetryAfter(table, id, now) == 0
    ensures OnFailure(environment, table, request, message, now).outcome == Respond(InvalidCredentials(message))
    ensures OnFailure(environment, table, request, message, now).table[id] == AttemptRow(1, now)
  {
  }

  /** Every row the handler writes holds between 1 and 3 attempts. */
  ghost predicate CountsBounded(table: AttemptTable) {
    forall id :: id in table ==> 1 <= table[id].attempts <= MAX_ATTEMPTS
  }

  lemma OnFailureKeepsCountsBounded(environment: string, table: AttemptTable, request: Request, message: string, now: int)
    requires CountsBounded(table)
    ensures CountsBounded(OnFailure(environment, table, request, message, now).table)
  {
  }

  /** A failure touches at most the row of its own identifier. */
  lemma OnFailureIsLocal(environment: string, table: AttemptTable, request: Request, message: string, now: int, other: string)
    requires ClientIdentifier(request.body, request.clientIp, UNKNOWN_CLIENT) != Some(other)
    ensures var t := OnFailure(environment, table, request, message, now).table;
      (other in t <==> other in table) && (other in table ==> t[other] == table[other])
  {
  }

  /** Replays failed logins in order, each `(request, time)`, threading the
      table; answers the outcomes and the final table. */
  function Replay(environment: string, table: AttemptTable, failures: seq<(Request, int)>, message: string): (r: (seq<Outcome>, AttemptTable))
    ensures |r.0| == |failures|
    decreases |failures|
  {
    if failures == [] then ([], table)
    else
      var first := OnFailure(environment, table, failures[0].0, message, failures[0].1);
      var rest := Replay(environment, first.table, failures[1..], message);
      ([first.outcome] + rest.0, rest.1)
  }

  /** The identifier a failure is counted under, when it is a string test_id. */
  predicate CarriesTestId(failure: (Request, int), id: string) {
    Lookup(failure.0.body, "test_id") == Str(id) && Truthy(Str(id))
  }

  /** The lockout is keyed by whatever `test_id` the client sends, in every
      environment: failures that each carry a new test_id are all answered
      401, however many arrive and however close together. */
  lemma {:induction false} FreshTestIdsAreNeverLocked(environment: string, table: AttemptTable,
                                                      failures: seq<(Request, int)>, ids: seq<string>, message: string)
    requires |ids| == |failures|
    requires forall i :: 0 <= i < |failures| ==> CarriesTestId(failures[i], ids[i])
    requires forall i, j :: 0 <= i < j < |ids| ==> ids[i] != ids[j]
    requires forall i :: 0 <= i < |ids| ==> ids[i] !in table
    ensures forall i :: 0 <= i < |failures| ==>
      Replay(environment, table, failures, message).0[i] == Respond(InvalidCredentials(message))
    decreases |failures|
  {
    if failures != [] {
      var first := OnFailure(environment, table, failures[0].0, message, failures[0].1);
      assert ClientIdentifier(failures[0].0.body, failures[0].0.clientIp, UNKNOWN_CLIENT) == Some(ids[0]);
      assert first.table.Keys <= table.Keys + {ids[0]};
      FreshTestIdsAreNeverLocked(environment, first.table, failures[1..], ids[1..], message);
      var all := Replay(environment, table, failures, message).0;
      forall i | 0 <= i < |failures|
        ensures all[i] == Respond(InvalidCredentials(message))
      {
        if i > 0 {
          assert all[i] == Replay(environment, first.table, failures[1..], message).0[i - 1];
        }
      }
    }
  }
}
