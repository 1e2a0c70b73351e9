/** The `api_tokens` table and `ApiTokenRepository`. A row's expiry is
    whatever the `ApiToken` entity was given; the model never invents one. */
module ApiTokens {
  import opened Php
  import opened Accounts

  datatype ApiToken = ApiToken(token: string, user: User, expiresAt: int)

  /** The `api_tokens` table, keyed by its unique `token` column. */
  type TokenTable = map<string, ApiToken>

  predicate WellKeyed(table: TokenTable) {
    forall t :: t in table ==> table[t].token == t
  }

  /** `findValidToken`: the row whose token equals the argument and whose
      expiry is strictly after `now`, if there is one. */
  function FindValidToken(table: TokenTable, token: string, now: int): (r: Option<ApiToken>)
    requires WellKeyed(table)
    ensures r.Some? ==> r.value in table.Values && r.value.token == token && r.value.expiresAt > now
    ensures r.None? ==> forall row :: row in table.Values && row.token == token ==> row.expiresAt <= now
  {
    if token in table && table[token].expiresAt > now then Some(table[token]) else None
  }

  /** The keys `removeExpiredTokens` deletes: expiry strictly before `now`. */
  function ExpiredTokens(table: TokenTable, now: int): (dead: set<string>)
    ensures forall t :: t in dead <==> t in table && table[t].expiresAt < now
    ensures dead <= table.Keys
    ensures forall t :: t in table && table[t].expiresAt > now ==> t !in dead
  {
    set t | t in table && table[t].expiresAt < now
  }

  /** The table `removeExpiredTokens` leaves behind. */
  function WithoutExpired(table: TokenTable, now: int): (r: TokenTable)
    ensures r.Keys == table.Keys - ExpiredTokens(table, now)
    ensures forall t :: t in r ==> r[t] == table[t] && r[t].expiresAt >= now
  {
    map t | t in table && table[t].expiresAt >= now :: table[t]
  }

  class ApiTokenRepository {
    var tokens: TokenTable

    ghost predicate Valid()
      reads this
    {
      WellKeyed(tokens)
    }

    constructor (tokens: TokenTable)
      requires WellKeyed(tokens)
      ensures Valid() && this.tokens == tokens
    {
      this.tokens := tokens;
    }

    /** The DQL `DELETE ... WHERE t.expiresAt < :now`, answering the number
        of deleted rows. */
    method RemoveExpiredTokens(now: int) returns (deleted: nat)
      requires Valid()
      modifies this
      ensures Valid()
      ensures tokens == WithoutExpired(old(tokens), now)
      ensures deleted == |ExpiredTokens(old(tokens), now)| == |old(tokens)| - |tokens|
    {
      var dead := ExpiredTokens(tokens, now);
      deleted := |dead|;
      CardinalityAfterRemoval(tokens, now);
      tokens := WithoutExpired(tokens, now);
    }

    /** `persist` + `flush` of a new row; a token value already stored
        violates the unique index and leaves the table as it was. */
    method Persist(row: ApiToken) returns (inserted: bool)
      requires Valid()
      modifies this
      ensures Valid()
      ensures inserted <==> row.token !in old(tokens)
      ensures tokens == if inserted then old(tokens)[row.token := row] else old(tokens)
    {
      inserted := row.token !in tokens;
      if inserted {
        tokens := tokens[row.token := row];
      }
    }
  }

  lemma CardinalityAfterRemoval(table: TokenTable, now: int)
    ensures |WithoutExpired(table, now)| == |table| - |ExpiredTokens(table, now)|
  {
    var kept := WithoutExpired(table, now).Keys;
    var dead := ExpiredTokens(table, now);
    assert table.Keys == kept + dead;
    assert kept !! dead;
  }

  /** Cleaning up never changes which tokens are valid at the same instant. */
  lemma RemovalPreservesValidity(table: TokenTable, now: int, token: string)
    requires WellKeyed(table)
    ensures WellKeyed(WithoutExpired(table, now))
    ensures FindValidToken(WithoutExpired(table, now), token, now) == FindValidToken(table, token, now)
  {
  }

  /** A second cleanup at the same instant deletes nothing. */
  lemma RemovalIsIdempotent(table: TokenTable, now: int)
    ensures ExpiredTokens(WithoutExpired(table, now), now) == {}
    ensures WithoutExpired(WithoutExpired(table, now), now) == WithoutExpired(table, now)
  {
  }

  /** A token that expires exactly now is neither valid nor deleted. */
  lemma ExpiringNowIsNeitherValidNorRemoved(table: TokenTable, token: string, now: int)
    requires WellKeyed(table)
    requires token in table && table[token].expiresAt == now
    ensures FindValidToken(table, token, now).None?
    ensures token in WithoutExpired(table, now)
  {
  }
}
