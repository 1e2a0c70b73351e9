/** The `LoginAttempt` Doctrine entity: one row of `login_attempts`, whose
    `identifier` column carries a unique index. Timestamps are seconds. */
module LoginAttemptEntity {
  import opened Php

  class LoginAttempt {
    var id: Option<int>          // assigned by the database on flush
    var identifier: string
    var attempts: int
    var lastAttempt: int

    /** `new LoginAttempt($identifier, $lastAttempt, $attempts = 0)` */
    constructor (identifier: string, lastAttempt: int, attempts: int := 0)
      ensures this.identifier == identifier
      ensures this.lastAttempt == lastAttempt
      ensures this.attempts == attempts
      ensures id == None
    {
      this.id := None;
      this.identifier := identifier;
      this.lastAttempt := lastAttempt;
      this.attempts := attempts;
    }

    function GetId(): Option<int>
      reads this
    {
      id
    }

    function GetIdentifier(): string
      reads this
    {
      identifier
    }

    function GetAttempts(): int
      reads this
    {
      attempts
    }

    function GetLastAttempt(): int
      reads this
    {
      lastAttempt
    }

    /** Fluent setter: returns the record itself. */
    method SetIdentifier(identifier: string) returns (self: LoginAttempt)
      modifies this
      ensures self == this
      ensures GetIdentifier() == identifier
      ensures attempts == old(attempts) && lastAttempt == old(lastAttempt) && id == old(id)
    {
      this.identifier := identifier;
      self := this;
    }

    method SetAttempts(attempts: int) returns (self: LoginAttempt)
      modifies this
      ensures self == this
      ensures GetAttempts() == attempts
      ensures identifier == old(identifier) && lastAttempt == old(lastAttempt) && id == old(id)
    {
      this.attempts := attempts;
      self := this;
    }

    /** `$this->attempts += $by`, with `$by` (here `amount`) defaulting to 1. */
    method IncrementAttempts(amount: int := 1) returns (self: LoginAttempt)
      modifies this
      ensures self == this
      ensures GetAttempts() == old(attempts) + amount
      ensures identifier == old(identifier) && lastAttempt == old(lastAttempt) && id == old(id)
    {
      this.attempts := this.attempts + amount;
      self := this;
    }

    method SetLastAttempt(lastAttempt: int) returns (self: LoginAttempt)
      modifies this
      ensures self == this
      ensures GetLastAttempt() == lastAttempt
      ensures identifier == old(identifier) && attempts == old(attempts) && id == old(id)
    {
      this.lastAttempt := lastAttempt;
      self := this;
    }
  }

  /** Because every setter returns its receiver, a chain of fluent calls acts
      on one record: `$a->setAttempts(0)->incrementAttempts()->setLastAttempt($t)`
      leaves that record with one attempt at time `t`. */
  method ChainedUpdates(a: LoginAttempt, t: int) returns (self: LoginAttempt)
    modifies a
    ensures self == a
    ensures a.attempts == 1 && a.lastAttempt == t && a.identifier == old(a.identifier)
  {
    var r := a.SetAttempts(0);
    r := r.IncrementAttempts();
    self := r.SetLastAttempt(t);
  }
}
