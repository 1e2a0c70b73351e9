# Authentication and abuse protection of a Symfony JSON API, in Dafny

This project models the part of the application that decides who may log in,
register and call the API, and how often:

- **Login lockout** (`AuthenticationFailureHandler`, the `LoginAttempt` entity).
  A failed login is counted in the `login_attempts` table under the client's
  identifier `($data['test_id'] ?? $request->getClientIp()) ?: 'unknown'`.
  `??` binds tighter than `?:`: when the body carries a `test_id` the IP is
  never consulted, so a falsy `test_id` ("", "0", 0, false) gives
  `"unknown"`; only a missing or null `test_id` lets the IP decide. While a
  row is younger than five minutes and already holds three failures, the
  handler answers 429 with `retry_after` and does not count that failure.
  Otherwise it counts the failure and answers 401. The test environment skips
  all of this, counting nothing, unless the body sets a truthy
  `enable_rate_limiting`.
- **API tokens** (`ApiTokenAuthenticator`, `ApiTokenRepository`,
  `AuthenticationSuccessHandler`).
  - A successful login issues `base64_encode(random_bytes(32))` and stores it
    for the user.
  - Later requests present it in `Authorization`, with or without `Bearer `.
  - A token is accepted while its expiry is strictly in the future.
  - The cleanup deletes the rows whose expiry is strictly in the past.
- **Registration** (`RegistrationController`): a ladder of early returns
  (missing field 400, invalid e-mail 400, e-mail taken 409), then a new
  `ROLE_USER` account and 201.
- **Rate-limit listeners** (`RegistrationRateLimitListener`,
  `LoginRateLimitListener`): `RequestEvent` and `CheckPassportEvent` listeners
  that take tokens from Symfony rate limiters and answer 429 or throw.
- **Greetings** (`GreetingService`): `ucfirst`, `sprintf` and the time-of-day
  match.

Each source file is one module. Five shared modules support them:

- `Php` covers the PHP value semantics the code leans on: what
  `json_decode(..., true)` yields, truthiness and `empty`, `??` and `?:`, and
  coercion to a `string` parameter.
- `Http` covers requests, JSON responses, exceptions, the `RequestEvent`, and
  the `(test_id ?? ip) ?: fallback` identifier.
- `Accounts` is the `users` table keyed by e-mail, with `findOneByEmail` and
  the insert the registration controller performs.
- `Base64` is the encoding of section 4 of RFC 4648 that `base64_encode`
  implements, with its decoder as the partner that proves nothing is lost.
- `RateLimiting` is a Symfony rate limiter as the listeners see it: a policy
  over each key's history of `consume` calls.

Database tables are maps keyed by their unique column. Services that write
them are classes whose methods are proved equal to a pure function of the
old table, or to an explicit update of it. The clock, `random_bytes`, `filter_var`, the password hasher and the
rate limiter's policy are parameters.

`RequestDispatch` runs the two `RequestEvent` listeners in priority order. It
proves that a POST to `/api/register` that is not exempt and carries a truthy
string `test_id` takes TWO tokens under that key from the shared registration
limiter when accepted, and one when refused. The reason is that both listeners
limit registrations. The keys differ when the identifier falls back: the
registration listener uses `'unknown'` and the login listener `'test-client'`,
so without a `test_id` and with an empty IP the two tokens go to two keys.

`LoginFailures.FreshTestIdsAreNeverLocked` proves that the login lockout
follows any `test_id` the client sends, in every environment. A client that
sends a new `test_id` with each failure is never locked out.

Where the design description and the code differ, the model follows the code:

- The design has the token issuer retry when a generated token collides. The
  code persists once, so a collision ends in the unique-index exception
  (`TokenIssuance.AuthenticationSuccessHandler.OnAuthenticationSuccess`).
- The design counts each registration attempt once. The code counts it twice,
  as above, under one key when a truthy string `test_id` is sent.

## Model

| member | source | states |
|---|---|---|
| `Php.Lookup` | src/Security/AuthenticationFailureHandler.php:29-30 | `$data[$key] ?? …` on the decoded body: an array body holding the key gives exactly the stored value; a missing key or a scalar body gives null; it never raises |
| `Php.Coalesce` | src/Security/AuthenticationFailureHandler.php:30 | `??` keeps a non-null left side and otherwise yields the fallback unchanged; the result is null exactly when both sides are null |
| `Php.Elvis` | src/Security/AuthenticationFailureHandler.php:39 | `?:` keeps a truthy left side and otherwise yields the fallback; the result is truthy exactly when either side is, so a truthy fallback guarantees a truthy result |
| `Php.StringArgument` | src/Security/AuthenticationFailureHandler.php:39-42 | a value passed to a `string` parameter: a string is unchanged, an integer becomes its decimal digits, `true` becomes "1" and `false` becomes ""; null and arrays, and only those, raise TypeError |
| `Php.TruthyStringArgument` | src/Security/AuthenticationFailureHandler.php:39 | a truthy value never coerces to "" or "0"; of truthy values only an array fails to coerce |
| `Http.ClientIdentifier` | src/Security/AuthenticationFailureHandler.php:38-39 | `(test_id ?? ip) ?: fallback`: a truthy string test_id wins; with no test_id a truthy IP wins; when both are falsy the fallback is used; the identifier is never "" or "0"; a TypeError happens exactly when test_id is a non-empty array |
| `Http.RequestEvent.SetResponse` | src/EventListener/RegistrationRateLimitListener.php:42-45 | setting the response also stops propagation to later listeners |
| `LoginAttemptEntity.LoginAttempt.constructor` | src/Entity/LoginAttempt.php:28-33 | a new record holds the given identifier, timestamp and count (default 0) and has no id yet |
| `LoginAttemptEntity.LoginAttempt.SetIdentifier` | src/Entity/LoginAttempt.php:45-49 | changes the identifier only and returns the same record |
| `LoginAttemptEntity.LoginAttempt.SetAttempts` | src/Entity/LoginAttempt.php:56-60 | changes the count only and returns the same record |
| `LoginAttemptEntity.LoginAttempt.IncrementAttempts` | src/Entity/LoginAttempt.php:62-66 | adds `amount` (default 1) to the count, changes nothing else, returns the same record |
| `LoginAttemptEntity.LoginAttempt.SetLastAttempt` | src/Entity/LoginAttempt.php:73-77 | changes the timestamp only and returns the same record |
| `LoginAttemptEntity.ChainedUpdates` | src/Entity/LoginAttempt.php:56-77 | a fluent chain acts on one record: reset, increment and stamp leave it with one attempt at the given time |
| `LoginFailures.LiveAttempts` | src/Security/AuthenticationFailureHandler.php:61-74 | the stored count while the row is live (`HasLiveRow`: stored, and `InWindow`, its last attempt strictly after now − 300); 0 for a stale or missing row; a positive count always comes with a positive `RetryAfter` |
| `LoginFailures.RetryAfter` | src/Security/AuthenticationFailureHandler.php:99-112 | never negative; positive exactly while the row is live, and then equal to the seconds left until last attempt + 300; at most 300 for a row not in the future |
| `LoginFailures.Recorded` | src/Security/AuthenticationFailureHandler.php:76-97 | after recording, the identifier's row holds one more than the live count (so 1 for a stale or missing row), stamped now; the table gains at most that key; every other row is unchanged |
| `LoginFailures.OnFailure` | src/Security/AuthenticationFailureHandler.php:26-59 | exempt test request: 401 and the table untouched; array test_id: TypeError and untouched; 3 or more live failures: 429 with the positive retry time and untouched; otherwise 401 and the failure recorded |
| `LoginFailures.AuthenticationFailureHandler.OnAuthenticationFailure` | src/Security/AuthenticationFailureHandler.php:26-59 | the handler's answer and the new table are those of `OnFailure` on the old table; exemption is `RateLimitingSkipped`: the test environment without a truthy `enable_rate_limiting` |
| `LoginFailures.AuthenticationFailureHandler.IncrementAttempts` | src/Security/AuthenticationFailureHandler.php:76-97 | the conditional UPDATE followed, when it touched no row, by INSERT … ON DUPLICATE KEY UPDATE leaves the table as `Recorded` says |
| `LoginFailures.FourthFailureIsRefused` | src/Security/AuthenticationFailureHandler.php:41-58 | with each failure under five minutes after the previous one, three failures are 401 and leave the row at (3, t3); the fourth is 429 with `retry_after = t3 + 300 - t4 > 0` and changes nothing |
| `LoginFailures.LockoutExpires` | src/Security/AuthenticationFailureHandler.php:61-74 | once `retry_after` is 0 the next failure is 401 and counted as the first again |
| `LoginFailures.OnFailureKeepsCountsBounded` | src/Security/AuthenticationFailureHandler.php:44-53 | the handler never stores more than 3 or fewer than 1 attempts in a row |
| `LoginFailures.OnFailureIsLocal` | src/Security/AuthenticationFailureHandler.php:76-97 | a failure never adds, removes or changes the row of another identifier |
| `LoginFailures.FreshTestIdsAreNeverLocked` | src/Security/AuthenticationFailureHandler.php:38-39 | any number of failures, each with a new string test_id, are all answered 401, in any environment |
| `Accounts.UserRepository.Insert` | src/Controller/RegistrationController.php:45-54 | stores one new user under its e-mail with the next id; e-mails stay unique keys and ids stay distinct |
| `ApiTokens.FindValidToken` | src/Repository/ApiTokenRepository.php:19-28 | returns a stored row with that token whose expiry is strictly after now; answers nothing only when every row with that token has expired |
| `ApiTokens.ExpiredTokens` | src/Repository/ApiTokenRepository.php:30-38 | the rows to delete are stored rows, exactly those with expiry strictly before now; no token still valid (expiry after now) is among them |
| `ApiTokens.WithoutExpired` | src/Repository/ApiTokenRepository.php:30-38 | the cleanup keeps exactly the other rows, unchanged |
| `ApiTokens.ApiTokenRepository.RemoveExpiredTokens` | src/Repository/ApiTokenRepository.php:30-38 | the table becomes `WithoutExpired`; the answer is the number of rows deleted |
| `ApiTokens.ApiTokenRepository.Persist` | src/Security/AuthenticationSuccessHandler.php:37-38 | a new token value is stored; one already present violates the unique index and nothing changes |
| `ApiTokens.CardinalityAfterRemoval` | src/Repository/ApiTokenRepository.php:30-38 | rows kept = rows before − rows deleted |
| `ApiTokens.RemovalPreservesValidity` | src/Repository/ApiTokenRepository.php:19-38 | the cleanup never changes which token is valid at the same instant |
| `ApiTokens.RemovalIsIdempotent` | src/Repository/ApiTokenRepository.php:30-38 | a second cleanup at the same instant deletes nothing |
| `ApiTokens.ExpiringNowIsNeitherValidNorRemoved` | src/Repository/ApiTokenRepository.php:19-38 | a token expiring exactly now is refused by the lookup (`>`) and kept by the cleanup (`<`) |
| `TokenAuthentication.ExtractToken` | src/Security/ApiTokenAuthenticator.php:42-45 | a header starting with "Bearer " is that prefix followed by the token; any other header is the token itself |
| `TokenAuthentication.ExtractAfterPrefix` | src/Security/ApiTokenAuthenticator.php:43-45 | exactly one prefix is stripped, even from a token that itself starts with "Bearer " |
| `TokenAuthentication.ValidateToken` | src/Security/ApiTokenAuthenticator.php:79-84 | an identifier exactly when the token is stored and unexpired, and it is the owner's identifier |
| `TokenAuthentication.Authenticate` | src/Security/ApiTokenAuthenticator.php:34-63 | no header gives "No API token provided"; an empty token ("" or "0") gives "Invalid token format"; authenticated exactly when the extracted token is non-empty, stored and unexpired, with the owner's identifier in the passport; a non-empty token that is unknown or expired is refused with exactly "Invalid or expired token" |
| `TokenAuthentication.MalformedTokenIgnoresStore` | src/Security/ApiTokenAuthenticator.php:47-49 | an empty token is refused the same way whatever the table and the time |
| `TokenAuthentication.Respond` | src/Security/ApiTokenAuthenticator.php:29-77 | `supports` (`Supports`) holds exactly when the header is present; the authenticator lets the request through exactly when it lacks the header or authenticates; otherwise `onAuthenticationFailure` answers 401 with "Authentication failed" and the message of that failure |
| `TokenAuthentication.AcceptanceFlipsAtExpiry` | src/Security/ApiTokenAuthenticator.php:51-56 | an accepted token is refused with "Invalid or expired token" at the instant of its expiry and at every later instant |
| `Base64.EncodeChar` | src/Security/AuthenticationSuccessHandler.php:30 | each of the 64 values maps to a character of the alphabet |
| `Base64.CharRoundTrip` | src/Security/AuthenticationSuccessHandler.php:30 | the character chosen for a value decodes back to that value |
| `Base64.Encode` | src/Security/AuthenticationSuccessHandler.php:30 | the encoding of n bytes has four characters per quantum (`Quanta`) |
| `Base64.QuantaAndPadding` | src/Security/AuthenticationSuccessHandler.php:30 | there are ⌈n/3⌉ quanta, and the padding is none, two or one '=' as n mod 3 is 0, 1 or 2 |
| `Base64.DecodeEncode` | src/Security/AuthenticationSuccessHandler.php:30 | decoding an encoding gives the bytes back, so the encoding loses nothing |
| `Base64.EncodeShape` | src/Security/AuthenticationSuccessHandler.php:30 | every character is from the alphabet except the final padding of 0, 1 or 2 '=' |
| `Base64.Rfc4648VectorF` | src/Security/AuthenticationSuccessHandler.php:30 | "f" encodes to "Zg==", the test vector of section 10 of RFC 4648 |
| `Base64.Rfc4648VectorFo` | src/Security/AuthenticationSuccessHandler.php:30 | "fo" encodes to "Zm8=" (section 10 of RFC 4648) |
| `Base64.Rfc4648VectorFoo` | src/Security/AuthenticationSuccessHandler.php:30 | "foo" encodes to "Zm9v" (section 10 of RFC 4648) |
| `Base64.Rfc4648VectorFoobar` | src/Security/AuthenticationSuccessHandler.php:30 | "foobar" encodes to "Zm9vYmFy" (section 10 of RFC 4648) |
| `Base64.ThirtyTwoBytes` | src/Security/AuthenticationSuccessHandler.php:30 | 32 bytes encode to 44 characters: 43 from the alphabet and a final '=' |
| `TokenIssuance.GenerateToken` | src/Security/AuthenticationSuccessHandler.php:29-30 | the token has 44 characters ending in one '=' and decodes back to the 32 random bytes |
| `TokenIssuance.AuthenticationSuccessHandler.OnAuthenticationSuccess` | src/Security/AuthenticationSuccessHandler.php:24-49 | stores exactly one new row (token, user, expiry) and answers 200 with that token and the user's id, e-mail and roles (`LoginResponse`); a colliding token throws the unique-index violation and stores nothing |
| `TokenIssuance.IssuedTokenAuthenticates` | src/Security/AuthenticationSuccessHandler.php:29-42 | the issued token, with or without "Bearer ", authenticates its user until its expiry |
| `Registration.FilterEmail` | src/Controller/RegistrationController.php:35-38 | an array e-mail is rejected; a string is filtered as is |
| `Registration.Admit` | src/Controller/RegistrationController.php:30-43 | the checks in order: missing or empty field or a non-array body (`FieldsMissing`) → 400 "Missing email or password"; rejected e-mail → 400 "Invalid email address"; e-mail found by `findOneByEmail` → 409; admitted exactly otherwise, with the filtered e-mail and a truthy password |
| `Registration.RegistrationController.Register` | src/Controller/RegistrationController.php:27-57 | a refusal or an array password (TypeError) stores nothing; otherwise exactly one user is added with the filtered e-mail, `['ROLE_USER']`, the hashed password and the current time, and the answer is 201 with the new id |
| `Registration.MissingBeatsDuplicate` | src/Controller/RegistrationController.php:31-43 | a taken e-mail with a missing password is answered 400, not 409 |
| `Registration.RepeatIsConflict` | src/Controller/RegistrationController.php:40-43 | after a registration `findOneByEmail` (`Accounts.FindOneByEmail`) finds exactly the new user under its e-mail, and the same request again is 409 |
| `RateLimiting.RequestedAppend` | src/EventListener/RegistrationRateLimitListener.php:41-44 | consuming n tokens adds exactly n to the count asked for; `consume(0)` adds nothing |
| `RateLimiting.Limiter.Consume` | src/EventListener/RegistrationRateLimitListener.php:39-41 | the answer is the policy's for the key's earlier history, and the request is appended to that key's history only |
| `RegistrationRateLimit.RegistrationRateLimitListener.OnRequest` | src/EventListener/RegistrationRateLimitListener.php:24-48 | requests other than a POST to /api/register (`IsRegistration`) and exempt test requests (`RateLimitingSkipped`) pass with nothing changed; otherwise one token under `(test_id ?? ip) ?: 'unknown'`; on refusal a second `consume(0)` gives the 429's retry time and propagation stops |
| `LoginRateLimit.LoginKey` | src/EventListener/LoginRateLimitListener.php:84 | the login key is the client IP when truthy, else "test-client"; the body never changes it |
| `LoginRateLimit.LoginRateLimitListener.OnRequest` | src/EventListener/LoginRateLimitListener.php:36-64 | the environment check comes first; a non-exempt POST /api/register takes one token under `(test_id ?? ip) ?: 'test-client'`, and a refusal is a 429 timed by that same consume |
| `LoginRateLimit.LoginRateLimitListener.OnCheckPassport` | src/EventListener/LoginRateLimitListener.php:66-96 | no current request, exempt requests (`RateLimitingSkipped`) and anything but a POST to /api/login (`IsLogin`) take nothing; a POST /api/login takes one token under `LoginKey` and raises TooManyLoginAttempts exactly when refused |
| `RequestDispatch.DispatchRequest` | src/EventListener/RegistrationRateLimitListener.php:12-48 | with both listeners in priority order on one limiter, a registration under test_id t that the first listener accepts is consumed again by the second, and is refused exactly when that second consume is refused; one that the first listener refuses gets a `consume(0)` and a 429, and the second listener never runs |
| `RequestDispatch.TokensPerRegistration` | src/EventListener/LoginRateLimitListener.php:50-56 | those two histories ask the limiter for two tokens and one token respectively |
| `Greeting.UpperFirst` | src/Service/GreetingService.php:18 | `ucfirst`: an ASCII lower-case first letter becomes its upper-case letter; everything else is kept |
| `Greeting.UpperFirstIsIdempotent` | src/Service/GreetingService.php:18 | capitalising twice is capitalising once |
| `Greeting.Greet` | src/Service/GreetingService.php:14-19 | "Hello, " + the capitalised name + "!" |
| `Greeting.GreetIgnoresCapitalisation` | src/Service/GreetingService.php:18 | greeting an already capitalised name gives the same greeting |
| `Greeting.GreetExamples` | tests/Integration/Service/GreetingServiceTest.php:39-51 | "john" gives "Hello, John!" and "alice" gives "Hello, Alice!" |
| `Greeting.TimeOfDay` | src/Service/GreetingService.php:25-30 | morning for hours 5–11, afternoon for 12–17, evening for 18–21, night otherwise, each as an if-and-only-if |
| `Greeting.TimeOfDayBoundaries` | src/Service/GreetingService.php:25-30 | hours 4/5, 11/12, 17/18 and 21/22 fall on either side of each boundary |
| `Greeting.GreetWithTime` | src/Service/GreetingService.php:21-38 | the greeting starts with "Good ", ends with "!", and is 8 characters longer than the part of the day and the name together |
| `Greeting.GreetWithTimeParts` | src/Service/GreetingService.php:37 | after "Good " come the part of the day, then ", " and the capitalised name |
| `Greeting.GreetBobAtAnyHour` | tests/Integration/Service/GreetingServiceTest.php:53-68 | at any hour, greeting "bob" is "Good <part of day>, Bob!" |

## Left out

- The clock, `random_bytes`, `date('H')`, `filter_var(..., FILTER_VALIDATE_EMAIL)` and the password hasher are inputs. `now` stands for every `NOW()`, `new \DateTime()` and `time()` of one call.
- Logging (`error_log`, the PSR logger) has no effect on results and is not modelled.
- Concurrency is not modelled: two failures racing between the UPDATE and the INSERT, or two logins racing on the token table.
- Collation is not modelled; the model compares strings exactly. The `login_attempts` table is created with `utf8mb4_unicode_ci` (migrations/Version20251204000000.php:28), which matches identifiers case-insensitively and ignores trailing spaces, so "abc", "ABC" and "abc " share one row there but are three keys in the model. The `users` and `api_tokens` migrations set no collation, so how e-mails and tokens compare depends on the database's default configuration, which is not part of this model.
- JSON floats and nested structure are not modelled: a nested array is kept only as its size, which is all truthiness needs. A float `test_id` would coerce to its PHP string form.
- PHP strings are bytes. The model uses sequences of characters, which agree on the ASCII prefix "Bearer " and on base64 output.
- PHP's 64-bit integers are unbounded here, so a count or timestamp cannot overflow.
- The Symfony rate limiter's policy (limit, interval, sliding or fixed window) lives in configuration that is not part of this model. It is an arbitrary function of the key's history: no particular limit is proved.
- `RequestDispatch.DispatchRequest`: the Symfony firewall also listens on `kernel.request`, at priority 8, between the registration listener (10) and the login listener's `onRequest` (0). The model runs only the two listeners. If a firewall authenticator answered the request, propagation would stop before the second `consume`, and the request would take one token, not two.
- Column widths are not modelled: `login_attempts.identifier` is `VARCHAR(255)` (migrations/Version20251204000000.php:23) and `users.email` is 180 characters long (migrations/Version20251201010100.php:23). Under MySQL's strict mode a longer `test_id` or e-mail makes the INSERT fail; the model stores strings of any length.
- The firewall wiring (security.yaml) is not part of this model. That includes which authenticator and handlers guard which path, and the path by which `TooManyLoginAttemptsException` reaches the failure handler.
- `TokenAuthentication.Authenticate`: the passport carries the user identifier only. The `UserBadge` loader that runs `findOneByEmail` later is not modelled, so an unknown user at load time is not covered.
- The `User` and `ApiToken` entities are not part of this model. A token's expiry is a parameter, and users are never deleted.
- `LoginAttemptEntity.LoginAttempt.GetId`, `GetIdentifier`, `GetAttempts` and `GetLastAttempt` are plain field reads and have no contract. The id is assigned by the database and is not modelled.
- `Greeting.UpperFirst`: ASCII-only, as PHP 8.2 and later behave. A locale-dependent `ucfirst` before 8.2 is not modelled.
- The demo controllers, the stock-status bundle, the kernel and the migrations are outside the authentication core. The migrations' unique indexes appear as the keys of the table maps.
