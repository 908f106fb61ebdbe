/**
  The account repository: the `accounts` table held as a map from account id
  to row, with the transactional operations of AccountRepository.java.

  The table is enumerated in insertion order (`order`), which is what the
  list query sorts; the database itself promises no order beyond its
  ORDER BY. Clock readings are parameters, and every mutating operation
  requires that the clock has not gone back behind any stored timestamp.
*/
module Repository {
  import opened Options
  import opened Accounts
  import opened AccountQuery

  type Store = map<string, Account>

  /** The primary key is the row's own `accountId`, and every row is well formed. */
  predicate StoreInvariant(m: Store) {
    forall id :: id in m ==> m[id].accountId == id && m[id].WellFormed()
  }

  /** No stored timestamp lies after `now`: the clock reading `now` is monotone with respect
      to every reading the store has recorded. */
  predicate NotAfter(m: Store, now: nat) {
    forall id :: id in m ==> m[id].updatedAt <= now
  }

  /** What any operation may do to the store: no row disappears (accounts are never
      physically deleted), no id or creation time changes, no update time moves back. */
  predicate Evolves(m: Store, m': Store) {
    forall id :: id in m ==>
      && id in m'
      && m'[id].accountId == m[id].accountId
      && m'[id].createdAt == m[id].createdAt
      && m'[id].updatedAt >= m[id].updatedAt
  }

  predicate NoDuplicates(ids: seq<string>) {
    forall i, j :: 0 <= i < j < |ids| ==> ids[i] != ids[j]
  }

  /** `ids` lists every key of `m` exactly once. */
  predicate Enumerates(m: Store, ids: seq<string>) {
    && (forall i :: 0 <= i < |ids| ==> ids[i] in m)
    && (forall id :: id in m ==> id in ids)
    && NoDuplicates(ids)
  }

  /** The rows of `m`, in the order `ids` gives their keys. */
  function Rows(m: Store, ids: seq<string>): (r: seq<Account>)
    requires forall i :: 0 <= i < |ids| ==> ids[i] in m
    ensures |r| == |ids|
    ensures forall i :: 0 <= i < |ids| ==> r[i] == m[ids[i]]
  {
    if ids == [] then [] else [m[ids[0]]] + Rows(m, ids[1..])
  }

  lemma RowsHaveDistinctIds(m: Store, ids: seq<string>)
    requires StoreInvariant(m) && Enumerates(m, ids)
    ensures DistinctIds(Rows(m, ids))
  {
  }

  /** The ids whose rows satisfy the WHERE clause of the list and count queries. */
  function MatchingIds(m: Store, query: Option<string>, includeInactive: bool): set<string> {
    set id | id in m && Matches(m[id], query, includeInactive)
  }

  /** The ids among `ids` whose rows satisfy the WHERE clause. */
  function MatchingAmong(m: Store, ids: seq<string>, query: Option<string>, includeInactive: bool): set<string> {
    set id | id in m && id in ids && Matches(m[id], query, includeInactive)
  }

  lemma MatchingAmongCons(m: Store, ids: seq<string>, query: Option<string>, includeInactive: bool)
    requires ids != [] && ids[0] in m && ids[0] !in ids[1..]
    ensures MatchingAmong(m, ids, query, includeInactive)
         == (if Matches(m[ids[0]], query, includeInactive) then {ids[0]} else {})
            + MatchingAmong(m, ids[1..], query, includeInactive)
    ensures ids[0] !in MatchingAmong(m, ids[1..], query, includeInactive)
  {
    assert forall id :: id in ids <==> id == ids[0] || id in ids[1..] by {
      assert ids == [ids[0]] + ids[1..];
    }
  }

  lemma FilterRowsCons(m: Store, ids: seq<string>, query: Option<string>, includeInactive: bool)
    requires ids != [] && forall i :: 0 <= i < |ids| ==> ids[i] in m
    ensures Filter(Rows(m, ids), query, includeInactive)
         == (if Matches(m[ids[0]], query, includeInactive) then [m[ids[0]]] else [])
            + Filter(Rows(m, ids[1..]), query, includeInactive)
  {
    assert Rows(m, ids)[1..] == Rows(m, ids[1..]);
  }

  /** Filtering the enumerated rows keeps one row per matching id. */
  lemma {:induction false} FilterCountsMatchingIds(m: Store, ids: seq<string>, query: Option<string>, includeInactive: bool)
    requires forall i :: 0 <= i < |ids| ==> ids[i] in m
    requires NoDuplicates(ids)
    ensures |Filter(Rows(m, ids), query, includeInactive)| == |MatchingAmong(m, ids, query, includeInactive)|
  {
    if ids != [] {
      assert ids[0] !in ids[1..] by {
        forall j | 0 <= j < |ids[1..]| ensures ids[1..][j] != ids[0] {
          assert ids[1..][j] == ids[j + 1];
        }
      }
      assert NoDuplicates(ids[1..]) by {
        forall i, j | 0 <= i < j < |ids[1..]| ensures ids[1..][i] != ids[1..][j] {
          assert ids[1..][i] == ids[i + 1] && ids[1..][j] == ids[j + 1];
        }
      }
      FilterCountsMatchingIds(m, ids[1..], query, includeInactive);
      FilterRowsCons(m, ids, query, includeInactive);
      MatchingAmongCons(m, ids, query, includeInactive);
      var rest := MatchingAmong(m, ids[1..], query, includeInactive);
      var here := Matches(m[ids[0]], query, includeInactive);
      var head: seq<Account> := if here then [m[ids[0]]] else [];
      var filteredRest := Filter(Rows(m, ids[1..]), query, includeInactive);
      assert |head + filteredRest| == |head| + |filteredRest|;
      if here {
        assert |{ids[0]} + rest| == 1 + |rest|;
      }
    }
  }

  /** The enumerated rows are exactly the stored rows. */
  lemma RowsAreStoredRows(m: Store, ids: seq<string>)
    requires StoreInvariant(m) && Enumerates(m, ids)
    ensures forall a :: a in Rows(m, ids) <==> a.accountId in m && m[a.accountId] == a
  {
    var rows := Rows(m, ids);
    forall a: Account | a.accountId in m && m[a.accountId] == a ensures a in rows {
      var k :| 0 <= k < |ids| && ids[k] == a.accountId;
      assert rows[k] == a;
    }
  }

  /** The list query's full selection over an enumerated store, and what it holds. */
  lemma SelectionFacts(m: Store, ids: seq<string>, query: Option<string>, includeInactive: bool)
    requires StoreInvariant(m) && Enumerates(m, ids)
    ensures var r := Listing(Rows(m, ids), query, includeInactive);
      && DistinctIds(r)
      && (forall a :: a in r <==> a.accountId in m && m[a.accountId] == a && Matches(a, query, includeInactive))
      && |r| == |MatchingIds(m, query, includeInactive)|
  {
    RowsHaveDistinctIds(m, ids);
    RowsAreStoredRows(m, ids);
    FilterCountsMatchingIds(m, ids, query, includeInactive);
    assert MatchingAmong(m, ids, query, includeInactive) == MatchingIds(m, query, includeInactive);
  }

  // ------------------------------------------------------------ transitions

  /** The store after createAccount: the existing row is kept as it is; otherwise a row made by
      the three-argument constructor is added. */
  function Created(m: Store, accountId: string, name: string, description: Option<string>,
                   firstRead: nat, secondRead: nat): (m': Store)
    requires firstRead <= secondRead
    ensures m'.Keys == m.Keys + {accountId}
    ensures forall id :: id in m ==> m'[id] == m[id]
    ensures accountId !in m ==> m'[accountId] == NewAccount(accountId, name, description, firstRead, secondRead)
    ensures StoreInvariant(m) ==> StoreInvariant(m')
    ensures NotAfter(m, firstRead) ==> NotAfter(m', secondRead) && Evolves(m, m')
  {
    if accountId in m then m else m[accountId := NewAccount(accountId, name, description, firstRead, secondRead)]
  }

  /** The store after inactivateAccount (`flag` false) or reactivateAccount (`flag` true): a row
      already in the wanted state, or an absent id, leaves the store untouched; otherwise the
      row takes the new state and the time `now`. */
  function SetActive(m: Store, accountId: string, flag: bool, now: nat): (m': Store)
    ensures m'.Keys == m.Keys
    ensures forall id :: id in m && id != accountId ==> m'[id] == m[id]
    ensures accountId in m ==> m'[accountId].active == Some(flag)
    ensures accountId in m ==> (m'[accountId] == m[accountId] <==> m[accountId].active == Some(flag))
    ensures accountId in m && m[accountId].active != Some(flag) ==>
      m'[accountId] == m[accountId].(active := Some(flag), updatedAt := now)
    ensures StoreInvariant(m) && NotAfter(m, now) ==> StoreInvariant(m') && NotAfter(m', now) && Evolves(m, m')
  {
    if accountId !in m || m[accountId].active == Some(flag) then m
    else m[accountId := m[accountId].(active := Some(flag), updatedAt := now)]
  }

  /** Whether updateAccount has something to change: a non-null name that differs from the
      stored one, or a non-null description that differs from the stored (possibly null) one. */
  predicate UpdateChanges(a: Account, name: Option<string>, description: Option<string>) {
    (name.Some? && name.value != a.name) || (description.Some? && description != a.description)
  }

  /** The store after updateAccount: non-null arguments replace the name and description, and
      the update time moves to `now` only when that changed something. */
  function Updated(m: Store, accountId: string, name: Option<string>, description: Option<string>,
                   now: nat): (m': Store)
    ensures m'.Keys == m.Keys
    ensures forall id :: id in m && id != accountId ==> m'[id] == m[id]
    ensures accountId in m ==>
      var a, a' := m[accountId], m'[accountId];
      && a'.accountId == a.accountId && a'.active == a.active && a'.createdAt == a.createdAt
      && a'.name == name.GetOr(a.name)
      && a'.description == (if description.Some? then description else a.description)
      && a'.updatedAt == (if UpdateChanges(a, name, description) then now else a.updatedAt)
    ensures StoreInvariant(m) && NotAfter(m, now) ==> StoreInvariant(m') && NotAfter(m', now) && Evolves(m, m')
  {
    if accountId !in m then m
    else
      var a := m[accountId];
      var edited := a.(name := name.GetOr(a.name),
                       description := if description.Some? then description else a.description);
      if edited == a then m else m[accountId := edited.(updatedAt := now)]
  }

  // ------------------------------------------------------- transition laws

  /** Creating an id that exists changes nothing: the first name and description stay. */
  lemma CreateIsIdempotent(m: Store, accountId: string, name1: string, description1: Option<string>,
                           name2: string, description2: Option<string>, t1: nat, t2: nat, t3: nat, t4: nat)
    requires t1 <= t2 && t3 <= t4
    ensures var once := Created(m, accountId, name1, description1, t1, t2);
            Created(once, accountId, name2, description2, t3, t4) == once
  {
  }

  /** Inactivating or reactivating twice is the same as doing it once: the second call leaves
      the update time as the first one set it. */
  lemma SetActiveIsIdempotent(m: Store, accountId: string, flag: bool, t1: nat, t2: nat)
    ensures var once := SetActive(m, accountId, flag, t1);
            SetActive(once, accountId, flag, t2) == once
  {
  }

  /** Reactivating an account that was inactivated while active restores every field but the
      update time. */
  lemma ReactivateUndoesInactivate(m: Store, accountId: string, t1: nat, t2: nat)
    requires accountId in m && m[accountId].IsActive()
    ensures SetActive(SetActive(m, accountId, false, t1), accountId, true, t2)
         == m[accountId := m[accountId].(updatedAt := t2)]
  {
  }

  /** Repeating an update changes nothing the second time, the update time included. */
  lemma UpdateIsIdempotent(m: Store, accountId: string, name: Option<string>, description: Option<string>,
                           t1: nat, t2: nat)
    ensures var once := Updated(m, accountId, name, description, t1);
            Updated(once, accountId, name, description, t2) == once
  {
  }

  /** An update that names the stored values leaves the store exactly as it was. */
  lemma UpdateWithSameValuesIsNoOp(m: Store, accountId: string, now: nat)
    requires accountId in m
    ensures var a := m[accountId];
            Updated(m, accountId, Some(a.name), a.description, now) == m
  {
  }

  // ------------------------------------------------------------- the class

  class AccountRepository {
    var accounts: Store
    /** The table's ids in insertion order: the order in which the database enumerates rows. */
    var order: seq<string>

    ghost predicate Valid()
      reads this
    {
      StoreInvariant(accounts) && Enumerates(accounts, order)
    }

    /** Every row the list and count queries select, in ORDER BY order. */
    function Selected(query: Option<string>, includeInactive: bool): (r: seq<Account>)
      reads this
      requires Valid()
      ensures NewestFirst(r) && DistinctIds(r)
      ensures forall a :: a in r <==> a.accountId in accounts && accounts[a.accountId] == a
                                       && Matches(a, query, includeInactive)
      ensures |r| == |MatchingIds(accounts, query, includeInactive)|
    {
      SelectionFacts(accounts, order, query, includeInactive);
      Listing(Rows(accounts, order), query, includeInactive)
    }

    constructor ()
      ensures Valid()
      ensures accounts == map[] && order == []
    {
      accounts := map[];
      order := [];
    }

    /** Returns the row whatever its `active` value, or None (null) when there is none. */
    method FindByAccountId(accountId: string) returns (r: Option<Account>)
      requires Valid()
      ensures r.Some? <==> accountId in accounts
      ensures r.Some? ==> r.value == accounts[accountId] && r.value.accountId == accountId
    {
      if accountId in accounts {
        r := Some(accounts[accountId]);
      } else {
        r := None;
      }
    }

    /** Idempotent creation: returns the existing row untouched, or stores and returns a new one. */
    method CreateAccount(accountId: string, name: string, description: Option<string>,
                         firstRead: nat, secondRead: nat) returns (a: Account)
      requires Valid() && NotAfter(accounts, firstRead) && firstRead <= secondRead
      modifies this
      ensures Valid() && NotAfter(accounts, secondRead) && Evolves(old(accounts), accounts)
      ensures accounts == Created(old(accounts), accountId, name, description, firstRead, secondRead)
      ensures order == if accountId in old(accounts) then old(order) else old(order) + [accountId]
      ensures accountId in accounts && a == accounts[accountId]
      ensures accountId in old(accounts) ==> a == old(accounts)[accountId]
      ensures accountId !in old(accounts) ==>
        a.accountId == accountId && a.name == name && a.description == description && a.IsActive()
    {
      var existing := FindByAccountId(accountId);
      if existing.Some? {
        return existing.value;
      }
      a := NewAccount(accountId, name, description, firstRead, secondRead);
      accounts := accounts[accountId := a];
      order := order + [accountId];
    }

    /** Soft delete. `reason` is only logged. Returns false when the id is absent, and true both
        when the row is inactivated and when it already was inactive. */
    method InactivateAccount(accountId: string, reason: Option<string>, now: nat) returns (found: bool)
      requires Valid() && NotAfter(accounts, now)
      modifies this
      ensures Valid() && NotAfter(accounts, now) && Evolves(old(accounts), accounts)
      ensures order == old(order)
      ensures found <==> accountId in old(accounts)
      ensures accounts == SetActive(old(accounts), accountId, false, now)
    {
      var account := FindByAccountId(accountId);
      if account.None? {
        return false;
      }
      if !account.value.active.value {
        return true;
      }
      accounts := accounts[accountId := account.value.(active := Some(false), updatedAt := now)];
      return true;
    }

    /** The mirror image of InactivateAccount. */
    method ReactivateAccount(accountId: string, reason: Option<string>, now: nat) returns (found: bool)
      requires Valid() && NotAfter(accounts, now)
      modifies this
      ensures Valid() && NotAfter(accounts, now) && Evolves(old(accounts), accounts)
      ensures order == old(order)
      ensures found <==> accountId in old(accounts)
      ensures accounts == SetActive(old(accounts), accountId, true, now)
    {
      var account := FindByAccountId(accountId);
      if account.None? {
        return false;
      }
      if account.value.active.value {
        return true;
      }
      accounts := accounts[accountId := account.value.(active := Some(true), updatedAt := now)];
      return true;
    }

    /** Replaces the name and the description by the non-null arguments that differ from the
        stored values, and moves the update time only if one of them did. None when absent. */
    method UpdateAccount(accountId: string, name: Option<string>, description: Option<string>,
                         now: nat) returns (r: Option<Account>)
      requires Valid() && NotAfter(accounts, now)
      modifies this
      ensures Valid() && NotAfter(accounts, now) && Evolves(old(accounts), accounts)
      ensures order == old(order)
      ensures r.Some? <==> accountId in old(accounts)
      ensures accounts == Updated(old(accounts), accountId, name, description, now)
      ensures r.Some? ==> r.value == accounts[accountId]
    {
      var found := FindByAccountId(accountId);
      if found.None? {
        return None;
      }
      var account := found.value;
      var changed := false;
      if name.Some? && name.value != account.name {
        account := account.(name := name.value);
        changed := true;
      }
      if description.Some? && description != account.description {
        account := account.(description := description);
        changed := true;
      }
      ghost var stored := found.value;
      assert account == stored.(name := name.GetOr(stored.name),
                                description := if description.Some? then description else stored.description);
      assert changed <==> account != stored;
      if changed {
        account := account.(updatedAt := now);
        accounts := accounts[accountId := account];
      }
      return Some(account);
    }

    /** One page of the list query: the selected rows from position max(offset, 0) on, at most
        max(pageSize, 1) of them. */
    method ListAccounts(query: Option<string>, includeInactive: bool, pageSize: int, offset: int)
      returns (rows: seq<Account>)
      requires Valid()
      ensures rows == Page(Selected(query, includeInactive), Max(offset, 0), Max(pageSize, 1))
      ensures |rows| <= Max(pageSize, 1)
      ensures NewestFirst(rows) && DistinctIds(rows)
      ensures forall a :: a in rows ==>
        a.accountId in accounts && accounts[a.accountId] == a && Matches(a, query, includeInactive)
    {
      rows := Page(Selected(query, includeInactive), Max(offset, 0), Max(pageSize, 1));
    }

    /** The count query: how many rows the list query selects, ignoring the window. */
    method CountAccounts(query: Option<string>, includeInactive: bool) returns (n: nat)
      requires Valid()
      ensures n == |Selected(query, includeInactive)|
      ensures n == |MatchingIds(accounts, query, includeInactive)|
    {
      n := |Selected(query, includeInactive)|;
    }
  }

  function Max(a: int, b: int): nat
    requires b >= 0
  {
    if a >= b then a else b
  }
}
