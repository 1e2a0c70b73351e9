/** `RegistrationController::register`: a ladder of early returns (missing
    field, invalid e-mail, duplicate e-mail), then the creation of a
    `ROLE_USER` account. The e-mail filter (`filter_var` with
    FILTER_VALIDATE_EMAIL) and the password hasher are parameters. */
module Registration {
  import opened Php
  import opened Http
  import opened Accounts

  const ROLE_USER := "ROLE_USER"
  const MISSING_FIELDS := "Missing email or password"
  const INVALID_EMAIL := "Invalid email address"
  const EMAIL_IN_USE := "Email already in use"

  /** `filter_var($value, FILTER_VALIDATE_EMAIL)`: an array is refused, a
      scalar is filtered as a string; `None` is PHP's `false`. */
  function FilterEmail(value: Value, emailFilter: string -> Option<string>): (r: Option<string>)
    ensures value.Arr? ==> r.None?
    ensures value.Str? ==> r == emailFilter(value.s)
  {
    match StringArgument(value)
    case None => None
    case Some(s) => emailFilter(s)
  }

  /** The result of the validation ladder. */
  datatype Admission =
    | Refused(response: Response)
    | Admitted(email: string, plainPassword: Value)

  predicate FieldsMissing(body: Body) {
    !body.ArrayBody? || EmptyAt(body, "email") || EmptyAt(body, "password")
  }

  /** The checks, in the controller's order: missing field -> 400, rejected
      e-mail -> 400, e-mail already stored -> 409. */
  function Admit(body: Body, users: UserTable, emailFilter: string -> Option<string>): (a: Admission)
    ensures FieldsMissing(body) ==> a == Refused(Response(HTTP_BAD_REQUEST, ErrorOnly(MISSING_FIELDS)))
    ensures !FieldsMissing(body) && FilterEmail(Lookup(body, "email"), emailFilter).None? ==>
      a == Refused(Response(HTTP_BAD_REQUEST, ErrorOnly(INVALID_EMAIL)))
    ensures !FieldsMissing(body) && FilterEmail(Lookup(body, "email"), emailFilter).Some? &&
            FilterEmail(Lookup(body, "email"), emailFilter).value in users ==>
      a == Refused(Response(HTTP_CONFLICT, ErrorOnly(EMAIL_IN_USE)))
    ensures a.Admitted? <==>
      && !FieldsMissing(body)
      && FilterEmail(Lookup(body, "email"), emailFilter).Some?
      && FilterEmail(Lookup(body, "email"), emailFilter).value !in users
    ensures a.Admitted? ==>
      && a.email == FilterEmail(Lookup(body, "email"), emailFilter).value
      && a.plainPassword == Lookup(body, "password")
      && Truthy(a.plainPassword)
  {
    if FieldsMissing(body) then
      Refused(Response(HTTP_BAD_REQUEST, ErrorOnly(MISSING_FIELDS)))
    else
      match FilterEmail(Lookup(body, "email"), emailFilter)
      case None => Refused(Response(HTTP_BAD_REQUEST, ErrorOnly(INVALID_EMAIL)))
      case Some(email) =>
        if FindOneByEmail(users, email).Some? then
          Refused(Response(HTTP_CONFLICT, ErrorOnly(EMAIL_IN_USE)))
        else
          Admitted(email, Lookup(body, "password"))
  }

  class RegistrationController {
    const repository: UserRepository
    const emailFilter: string -> Option<string>
    const hashPassword: string -> string

    constructor (repository: UserRepository, emailFilter: string -> Option<string>, hashPassword: string -> string)
      ensures this.repository == repository && this.emailFilter == emailFilter && this.hashPassword == hashPassword
    {
      this.repository := repository;
      this.emailFilter := emailFilter;
      this.hashPassword := hashPassword;
    }

    /** A refused request and a password the hasher cannot take (an array:
        TypeError) leave the table alone; otherwise exactly one user is added,
        with the filtered e-mail, `['ROLE_USER']` and the hash of the
        password, and the answer is 201 with the new id. */
    method Register(request: Request, now: int) returns (outcome: Outcome)
      requires repository.Valid()
      modifies repository
      ensures repository.Valid()
      ensures match Admit(request.body, old(repository.users), emailFilter)
        case Refused(response) =>
          outcome == Respond(response) && unchanged(repository)
        case Admitted(email, plain) =>
          match StringArgument(plain)
          case None => outcome == Throw(TypeError) && unchanged(repository)
          case Some(password) =>
            var user := User(old(repository.nextId), email, [ROLE_USER], hashPassword(password), now);
            && outcome == Respond(Response(HTTP_CREATED, Registered(user.id)))
            && repository.users == old(repository.users)[email := user]
            && repository.nextId == old(repository.nextId) + 1
    {
      var admission := Admit(request.body, repository.users, emailFilter);
      if admission.Refused? {
        return Respond(admission.response);
      }
      var password := StringArgument(admission.plainPassword);
      if password.None? {
        return Throw(TypeError);
      }
      var user := repository.Insert(admission.email, [ROLE_USER], hashPassword(password.value), now);
      outcome := Respond(Response(HTTP_CREATED, Registered(user.id)));
    }
  }

  /** The ladder's order: a taken e-mail with a missing password is a 400,
      not a 409. */
  lemma MissingBeatsDuplicate(body: Body, users: UserTable, emailFilter: string -> Option<string>)
    requires body.ArrayBody? && EmptyAt(body, "password")
    requires FilterEmail(Lookup(body, "email"), emailFilter).Some?
    requires FilterEmail(Lookup(body, "email"), emailFilter).value in users
    ensures Admit(body, users, emailFilter).response.status == HTTP_BAD_REQUEST
  {
  }

  /** After a successful registration the e-mail is found, and the same
      request again is a 409 that stores nothing. */
  lemma RepeatIsConflict(body: Body, users: UserTable, emailFilter: string -> Option<string>, user: User)
    requires Admit(body, users, emailFilter).Admitted?
    requires user.email == Admit(body, users, emailFilter).email
    ensures FindOneByEmail(users[user.email := user], user.email) == Some(user)
    ensures Admit(body, users[user.email := user], emailFilter) == Refused(Response(HTTP_CONFLICT, ErrorOnly(EMAIL_IN_USE)))
  {
  }
}
