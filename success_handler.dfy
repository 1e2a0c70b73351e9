/** `AuthenticationSuccessHandler`: after a successful login it issues a new
    API token, stores it for the user and returns it once. The random bytes
    and the row's expiry are inputs. */
module TokenIssuance {
  import opened Php
  import opened Http
  import opened Accounts
  import opened ApiTokens
  import opened Base64
  import opened TokenAuthentication

  const TOKEN_BYTES := 32

  /** `base64_encode(random_bytes(32))`: 44 characters, the last one '=',
      from which the 32 bytes can be decoded again. */
  function GenerateToken(randomBytes: seq<Byte>): (token: string)
    requires |randomBytes| == TOKEN_BYTES
    ensures |token| == 44 && token[43] == '='
    ensures forall i :: 0 <= i < 43 ==> IsAlphabetChar(token[i])
    ensures Decode(token) == Some(randomBytes)
  {
    ThirtyTwoBytes(randomBytes);
    DecodeEncode(randomBytes);
    Encode(randomBytes)
  }

  /** `{"success": true, "token": ..., "user": {"id", "email", "roles"}}` */
  function LoginResponse(user: User, token: string): (r: Response)
    ensures r.status == HTTP_OK
    ensures r.payload == LoggedIn(token, user.id, user.email, user.roles)
  {
    Response(HTTP_OK, LoggedIn(token, user.id, user.email, user.roles))
  }

  class AuthenticationSuccessHandler {
    const repository: ApiTokenRepository

    constructor (repository: ApiTokenRepository)
      ensures this.repository == repository
    {
      this.repository := repository;
    }

    /** Stores exactly one new row holding the generated token and the user,
        and answers that same token. A token value already in the table
        makes `flush` fail on the unique index, and nothing is stored. */
    method OnAuthenticationSuccess(user: User, randomBytes: seq<Byte>, expiresAt: int) returns (outcome: Outcome)
      requires |randomBytes| == TOKEN_BYTES
      requires repository.Valid()
      modifies repository
      ensures repository.Valid()
      ensures var token := GenerateToken(randomBytes);
        if token in old(repository.tokens) then
          outcome == Throw(UniqueConstraintViolation) && repository.tokens == old(repository.tokens)
        else
          && outcome == Respond(LoginResponse(user, token))
          && repository.tokens == old(repository.tokens)[token := ApiToken(token, user, expiresAt)]
    {
      var apiToken := GenerateToken(randomBytes);
      var inserted := repository.Persist(ApiToken(apiToken, user, expiresAt));
      if !inserted {
        return Throw(UniqueConstraintViolation);
      }
      outcome := Respond(LoginResponse(user, apiToken));
    }
  }

  /** The token handed out at login opens the API for its user, with or
      without the "Bearer " prefix, until the row's expiry. */
  lemma IssuedTokenAuthenticates(table: TokenTable, user: User, randomBytes: seq<Byte>, expiresAt: int,
                                 now: int, request: Request)
    requires WellKeyed(table)
    requires |randomBytes| == TOKEN_BYTES
    requires GenerateToken(randomBytes) !in table
    requires now < expiresAt
    requires request.authorization == Some(BEARER_PREFIX + GenerateToken(randomBytes))
          || request.authorization == Some(GenerateToken(randomBytes))
    ensures var token := GenerateToken(randomBytes);
      var after := table[token := ApiToken(token, user, expiresAt)];
      && WellKeyed(after)
      && Authenticate(request, after, now) == Authenticated(Passport(UserIdentifier(user)))
  {
    var token := GenerateToken(randomBytes);
    if request.authorization == Some(BEARER_PREFIX + token) {
      ExtractAfterPrefix(token);
    } else {
      assert token[..|BEARER_PREFIX|] != BEARER_PREFIX by {
        assert token[..|BEARER_PREFIX|][6] == token[6];
        assert IsAlphabetChar(token[6]);
      }
    }
    assert token != "" && token != "0" by {
      assert |token| == 44;
    }
  }
}
