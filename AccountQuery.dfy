/**
  What the repository's list and count queries mean, independently of how
  their JPQL text is assembled: the optional search on id or name, the
  optional active-only restriction, the ordering by creation time (newest
  first) and the offset/limit window.

  The search binds the pattern `%<term>%` to a LIKE; the `%`, `_` and `\` a
  caller puts in the term are not escaped and act as wildcards or as MySQL's
  default escape character in the database. The model reads the pattern as
  plain substring search, and reads SQL's LOWER as ASCII lower-casing (its
  full behaviour depends on the database collation).
*/
module AccountQuery {
  import opened Options
  import opened JavaText
  import opened Accounts

  /** The search term bound to the LIKE pattern, or None when the query is null or blank and
      the WHERE clause on id and name is left out altogether. */
  function SearchTerm(query: Option<string>): (t: Option<string>)
    ensures t.None? <==> query.None? || IsBlank(query.value)
    ensures t.Some? ==> t.value == ToLowerAscii(Trim(query.value))
    ensures t.Some? ==> ToLowerAscii(t.value) == t.value
  {
    if query.None? || IsBlank(query.value) then None
    else
      LowerIdempotent(Trim(query.value));
      Some(ToLowerAscii(Trim(query.value)))
  }

  /** The search ignores the case of the query: a query and its lower-cased form select the
      same term. */
  lemma SearchIgnoresQueryCase(q: string)
    ensures SearchTerm(Some(ToLowerAscii(q))) == SearchTerm(Some(q))
  {
    BlankIgnoresCase(q);
    TrimIgnoresCase(q);
    LowerIdempotent(Trim(q));
  }

  /** Hence a query and its lower-cased form match the same rows. */
  lemma MatchesIgnoresQueryCase(a: Account, q: string, includeInactive: bool)
    ensures Matches(a, Some(ToLowerAscii(q)), includeInactive) <==> Matches(a, Some(q), includeInactive)
  {
    SearchIgnoresQueryCase(q);
  }

  /** A query made only of control characters is not blank, so the WHERE clause stays, yet it
      trims to the empty term, whose pattern `%%` matches every row. */
  lemma ControlCharQueryMatchesAll(a: Account)
    ensures SearchTerm(Some("\U{1}")) == Some("")
    ensures MatchesText(a, Some("\U{1}"))
  {
    ControlCharIsNotBlankButTrims();
  }

  /** `LOWER(a.accountId) LIKE :query OR LOWER(a.name) LIKE :query`, when there is a term. */
  predicate MatchesText(a: Account, query: Option<string>) {
    match SearchTerm(query)
    case None => true
    case Some(term) => Contains(ToLowerAscii(a.accountId), term) || Contains(ToLowerAscii(a.name), term)
  }

  /** With a term, a row matches exactly when the term occurs, at some position, in its
      lower-cased id or in its lower-cased name. */
  lemma MatchesTextMeaning(a: Account, query: Option<string>)
    ensures MatchesText(a, query) <==>
      || SearchTerm(query).None?
      || (exists k :: OccursAt(ToLowerAscii(a.accountId), SearchTerm(query).value, k))
      || (exists k :: OccursAt(ToLowerAscii(a.name), SearchTerm(query).value, k))
  {
    if SearchTerm(query).Some? {
      ContainsIffOccurs(ToLowerAscii(a.accountId), SearchTerm(query).value);
      ContainsIffOccurs(ToLowerAscii(a.name), SearchTerm(query).value);
    }
  }

  /** The whole WHERE clause: the text search, and `a.active = true` unless inactive rows are wanted. */
  predicate Matches(a: Account, query: Option<string>, includeInactive: bool) {
    MatchesText(a, query) && (includeInactive || a.IsActive())
  }

  /** The rows that satisfy the WHERE clause, in their original relative order. */
  function Filter(rows: seq<Account>, query: Option<string>, includeInactive: bool): (r: seq<Account>)
    ensures |r| <= |rows|
    ensures multiset(r) <= multiset(rows)
    ensures forall a :: a in r <==> a in rows && Matches(a, query, includeInactive)
  {
    if rows == [] then []
    else
      assert rows == [rows[0]] + rows[1..];
      (if Matches(rows[0], query, includeInactive) then [rows[0]] else [])
        + Filter(rows[1..], query, includeInactive)
  }

  // ----------------------------------------------------------------- order

  /** `ORDER BY a.createdAt DESC`. */
  predicate NewestFirst(s: seq<Account>) {
    forall i, j :: 0 <= i < j < |s| ==> s[i].createdAt >= s[j].createdAt
  }

  lemma ConsNewestFirst(x: Account, rest: seq<Account>)
    requires NewestFirst(rest)
    requires forall y :: y in rest ==> y.createdAt <= x.createdAt
    ensures NewestFirst([x] + rest)
  {
    var r := [x] + rest;
    forall i, j | 0 <= i < j < |r| ensures r[i].createdAt >= r[j].createdAt {
      assert r[j] == rest[j - 1];
      if i > 0 {
        assert r[i] == rest[i - 1];
      } else {
        assert rest[j - 1] in rest;
      }
    }
  }

  /** Rows drawn from the tail of a newest-first sequence, or an older row, are no newer than
      its head. */
  lemma NoneNewerThanHead(a: Account, s: seq<Account>, rest: seq<Account>)
    requires NewestFirst(s) && s != [] && a.createdAt < s[0].createdAt
    requires multiset(rest) == multiset(s[1..]) + multiset{a}
    ensures forall y :: y in rest ==> y.createdAt <= s[0].createdAt
  {
    forall y | y in rest ensures y.createdAt <= s[0].createdAt {
      assert y in multiset(s[1..]) + multiset{a};
      if y != a {
        var k :| 0 <= k < |s[1..]| && s[1..][k] == y;
        assert s[k + 1] == y;
      }
    }
  }

  function InsertNewestFirst(a: Account, s: seq<Account>): (r: seq<Account>)
    requires NewestFirst(s)
    ensures NewestFirst(r)
    ensures multiset(r) == multiset(s) + multiset{a}
    ensures |r| == |s| + 1
  {
    if s == [] then [a]
    else if a.createdAt >= s[0].createdAt then
      ConsNewestFirst(a, s);
      [a] + s
    else
      assert s == [s[0]] + s[1..];
      var rest := InsertNewestFirst(a, s[1..]);
      NoneNewerThanHead(a, s, rest);
      ConsNewestFirst(s[0], rest);
      [s[0]] + rest
  }

  /** The rows in order of creation time, newest first. Rows created at the same instant keep
      their relative order here; the database promises no particular order among them. */
  function SortNewestFirst(s: seq<Account>): (r: seq<Account>)
    ensures NewestFirst(r)
    ensures multiset(r) == multiset(s)
    ensures |r| == |s|
  {
    if s == [] then []
    else
      assert s == [s[0]] + s[1..];
      InsertNewestFirst(s[0], SortNewestFirst(s[1..]))
  }

  // -------------------------------------------------------------- identity

  /** No two rows carry the same account id. */
  predicate DistinctIds(s: seq<Account>) {
    forall i, j :: 0 <= i < j < |s| ==> s[i].accountId != s[j].accountId
  }

  lemma ConsDistinctIds(x: Account, rest: seq<Account>)
    requires DistinctIds(rest)
    requires forall y :: y in rest ==> y.accountId != x.accountId
    ensures DistinctIds([x] + rest)
  {
    var r := [x] + rest;
    forall i, j | 0 <= i < j < |r| ensures r[i].accountId != r[j].accountId {
      assert r[j] == rest[j - 1];
      if i > 0 {
        assert r[i] == rest[i - 1];
      } else {
        assert rest[j - 1] in rest;
      }
    }
  }

  /** The first row of a sequence with distinct ids shares its id with no later row. */
  lemma HeadIdIsUnique(s: seq<Account>, x: Account)
    requires DistinctIds(s) && s != [] && x in s[1..]
    ensures x.accountId != s[0].accountId
  {
    var k :| 0 <= k < |s[1..]| && s[1..][k] == x;
    assert s[k + 1] == x;
  }

  lemma DistinctIdsTail(s: seq<Account>)
    requires DistinctIds(s) && s != []
    ensures DistinctIds(s[1..])
  {
    forall i, j | 0 <= i < j < |s[1..]| ensures s[1..][i].accountId != s[1..][j].accountId {
      assert s[1..][i] == s[i + 1] && s[1..][j] == s[j + 1];
    }
  }

  lemma {:induction false} FilterKeepsDistinctIds(rows: seq<Account>, query: Option<string>, includeInactive: bool)
    requires DistinctIds(rows)
    ensures DistinctIds(Filter(rows, query, includeInactive))
  {
    if rows != [] {
      DistinctIdsTail(rows);
      FilterKeepsDistinctIds(rows[1..], query, includeInactive);
      var rest := Filter(rows[1..], query, includeInactive);
      if Matches(rows[0], query, includeInactive) {
        forall x | x in rest ensures x.accountId != rows[0].accountId {
          HeadIdIsUnique(rows, x);
        }
        ConsDistinctIds(rows[0], rest);
      } else {
        assert Filter(rows, query, includeInactive) == rest;
      }
    }
  }

  lemma {:induction false} InsertKeepsDistinctIds(a: Account, s: seq<Account>)
    requires NewestFirst(s) && DistinctIds(s)
    requires forall x :: x in s ==> x.accountId != a.accountId
    ensures DistinctIds(InsertNewestFirst(a, s))
  {
    if s == [] || a.createdAt >= s[0].createdAt {
      ConsDistinctIds(a, s);
    } else {
      assert s == [s[0]] + s[1..];
      DistinctIdsTail(s);
      InsertKeepsDistinctIds(a, s[1..]);
      var rest := InsertNewestFirst(a, s[1..]);
      forall x | x in rest ensures x.accountId != s[0].accountId {
        assert x in multiset(s[1..]) + multiset{a};
        if x != a {
          HeadIdIsUnique(s, x);
        }
      }
      ConsDistinctIds(s[0], rest);
    }
  }

  lemma {:induction false} SortKeepsDistinctIds(s: seq<Account>)
    requires DistinctIds(s)
    ensures DistinctIds(SortNewestFirst(s))
  {
    if s != [] {
      assert s == [s[0]] + s[1..];
      SortKeepsDistinctIds(s[1..]);
      var sorted := SortNewestFirst(s[1..]);
      forall x | x in sorted ensures x.accountId != s[0].accountId {
        assert x in multiset(s[1..]);
        var k :| 0 <= k < |s[1..]| && s[1..][k] == x;
        assert s[k + 1] == x;
      }
      InsertKeepsDistinctIds(s[0], sorted);
    }
  }

  // ---------------------------------------------------------------- window

  /** `setFirstResult(skip).setMaxResults(limit)`: at most `limit` rows, starting after the
      first `skip`. */
  function Page(rows: seq<Account>, skip: nat, limit: nat): (r: seq<Account>)
    ensures |r| <= limit
    ensures |r| == if skip >= |rows| then 0 else Min(limit, |rows| - skip)
    ensures forall i :: 0 <= i < |r| ==> r[i] == rows[skip + i]
  {
    if skip >= |rows| then [] else rows[skip..Min(skip + limit, |rows|)]
  }

  function Min(a: int, b: int): int {
    if a <= b then a else b
  }

  /** A window that ends inside the rows is the plain slice. */
  lemma PageInside(rows: seq<Account>, skip: nat, limit: nat)
    requires skip + limit <= |rows|
    ensures Page(rows, skip, limit) == rows[skip..skip + limit]
  {
    assert Min(skip + limit, |rows|) == skip + limit;
  }

  /** Two consecutive windows read the same rows as one window as long as both together. */
  lemma PagesConcatenate(rows: seq<Account>, skip: nat, first: nat, second: nat)
    ensures Page(rows, skip, first) + Page(rows, skip + first, second) == Page(rows, skip, first + second)
  {
    var both := Page(rows, skip, first) + Page(rows, skip + first, second);
    var whole := Page(rows, skip, first + second);
    assert |both| == |whole|;
    forall i | 0 <= i < |both| ensures both[i] == whole[i] {
      if i >= |Page(rows, skip, first)| {
        assert both[i] == Page(rows, skip + first, second)[i - first];
      }
    }
  }

  // --------------------------------------------------------------- listing

  /** Every row that satisfies the WHERE clause, in the ORDER BY order; a page of the list
      query is a window of it and the count query counts it. */
  function Listing(rows: seq<Account>, query: Option<string>, includeInactive: bool): (r: seq<Account>)
    ensures NewestFirst(r)
    ensures forall a :: a in r <==> a in rows && Matches(a, query, includeInactive)
    ensures |r| == |Filter(rows, query, includeInactive)|
    ensures DistinctIds(rows) ==> DistinctIds(r)
  {
    var matching := Filter(rows, query, includeInactive);
    var r := SortNewestFirst(matching);
    assert forall a :: a in r <==> a in multiset(matching);
    if DistinctIds(rows) then
      FilterKeepsDistinctIds(rows, query, includeInactive);
      SortKeepsDistinctIds(matching);
      r
    else r
  }

  /** A blank or null query filters nothing: only the active-only restriction remains. */
  lemma BlankQueryMatchesByStatus(a: Account, query: Option<string>, includeInactive: bool)
    requires query.None? || IsBlank(query.value)
    ensures Matches(a, query, includeInactive) <==> includeInactive || a.IsActive()
  {
  }

  /** With inactive rows included, the listing is a superset of the active-only listing, and
      the active-only listing is exactly its active part. */
  lemma IncludeInactiveWidens(rows: seq<Account>, query: Option<string>, a: Account)
    ensures a in Listing(rows, query, false) <==> a in Listing(rows, query, true) && a.IsActive()
  {
  }
}
