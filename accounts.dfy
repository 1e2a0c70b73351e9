/** The user records the core reads and writes. The `User` entity and
    `UserRepository` are not part of this model; only the columns of the
    `users` table that the core touches are kept, and the user identifier
    is the e-mail address (the token authenticator loads users back by
    e-mail). */
module Accounts {
  import opened Php

  datatype User = User(id: nat, email: string, roles: seq<string>, password: string, createdAt: int)

  function UserIdentifier(u: User): string {
    u.email
  }

  /** The `users` table, keyed by its unique `email` column. */
  type UserTable = map<string, User>

  /** `findOneByEmail`: exact-match lookup. */
  function FindOneByEmail(users: UserTable, email: string): (r: Option<User>)
    ensures r.Some? <==> email in users
    ensures r.Some? ==> r.value == users[email]
  {
    if email in users then Some(users[email]) else None
  }

  /** The repository as the registration controller uses it: the table and
      the next auto-increment id. */
  class UserRepository {
    var users: UserTable
    var nextId: nat

    /** Keys are the rows' e-mails; ids are below the counter and distinct. */
    ghost predicate Valid()
      reads this
    {
      && (forall e :: e in users ==> users[e].email == e && users[e].id < nextId)
      && (forall e1, e2 :: e1 in users && e2 in users && e1 != e2 ==> users[e1].id != users[e2].id)
    }

    constructor ()
      ensures Valid() && users == map[] && nextId == 1
    {
      users := map[];
      nextId := 1;
    }

    /** `persist` + `flush` of a new user whose e-mail is not yet stored: the
        database assigns the next id. */
    method Insert(email: string, roles: seq<string>, password: string, createdAt: int) returns (u: User)
      requires Valid()
      requires email !in users
      modifies this
      ensures Valid()
      ensures u == User(old(nextId), email, roles, password, createdAt)
      ensures users == old(users)[email := u] && nextId == old(nextId) + 1
    {
      u := User(nextId, email, roles, password, createdAt);
      users := users[email := u];
      nextId := nextId + 1;
    }
  }
}
