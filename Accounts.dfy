/**
  The `accounts` table row. Timestamps are instants counted in nanoseconds
  since the Unix epoch; `description` and `active` are nullable references in
  the entity, so they are Options here.
*/
module Accounts {
  import opened Options

  /** The initial value of the `active` field, whichever constructor runs. */
  const DEFAULT_ACTIVE: bool := true

  datatype Account = Account(
    accountId: string,
    name: string,
    description: Option<string>,
    active: Option<bool>,
    createdAt: nat,
    updatedAt: nat)
  {
    /** What every row the repository stores satisfies: `active` is a non-null column and
        the update time never precedes the creation time. */
    predicate WellFormed() {
      active.Some? && createdAt <= updatedAt
    }

    predicate IsActive() {
      active == Some(true)
    }
  }

  /** The three-argument constructor. `firstRead` and `secondRead` are the two successive
      readings of the clock it takes, for `createdAt` and then `updatedAt`. */
  function NewAccount(accountId: string, name: string, description: Option<string>,
                      firstRead: nat, secondRead: nat): (a: Account)
    requires firstRead <= secondRead
    ensures a.accountId == accountId && a.name == name && a.description == description
    ensures a.IsActive() && a.active == Some(DEFAULT_ACTIVE)
    ensures a.WellFormed()
    ensures a.createdAt == firstRead && a.updatedAt == secondRead
  {
    Account(accountId, name, description, Some(DEFAULT_ACTIVE), firstRead, secondRead)
  }
}
