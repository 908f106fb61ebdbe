/**
  The account service handlers of AccountServiceImpl.java: request
  validation, the `created` flag, the mapping of an absent account to a
  NOT_FOUND failure or to an unsuccessful response, page-size and page-token
  normalisation, the next-page token, the entity-to-message mapping, and the
  lifecycle events the handlers hand to the event publisher.

  Request fields are strings that are never null, as protobuf getters return
  "" for an unset string field. The events handed to the publisher are
  recorded in the ghost log `events`; a publisher call that throws (which the
  handlers catch and log) is modelled by `delivered == false`, and then no
  event is recorded while the response is the same.
*/
module Service {
  import opened Options
  import opened JavaText
  import opened Accounts
  import opened AccountQuery
  import opened Repository

  const DEFAULT_PAGE_SIZE: int := 50
  const MAX_PAGE_SIZE: int := 200
  const NANOS_PER_SECOND: nat := 1_000_000_000

  const ID_REQUIRED: string := "Account ID is required"
  const NAME_REQUIRED: string := "Account name is required"
  const NOT_FOUND_PREFIX: string := "Account not found: "
  const INACTIVATED_MESSAGE: string := "Account inactivated successfully"
  const REACTIVATED_MESSAGE: string := "Account reactivated successfully"

  // -------------------------------------------------------------- messages

  /** google.protobuf.Timestamp. */
  datatype Timestamp = Timestamp(seconds: int, nanos: int)

  /** The account message of the API. */
  datatype AccountMessage = AccountMessage(
    accountId: string,
    name: string,
    description: string,
    active: bool,
    createdAt: Timestamp,
    updatedAt: Timestamp)

  datatype CreateAccountRequest = CreateAccountRequest(accountId: string, name: string, description: string)
  datatype CreateAccountResponse = CreateAccountResponse(account: AccountMessage, created: bool)
  datatype GetAccountRequest = GetAccountRequest(accountId: string)
  datatype InactivateAccountRequest = InactivateAccountRequest(accountId: string, reason: string)
  datatype InactivateAccountResponse = InactivateAccountResponse(success: bool, message: string, drivesAffected: int)
  datatype ReactivateAccountRequest = ReactivateAccountRequest(accountId: string, reason: string)
  datatype ReactivateAccountResponse = ReactivateAccountResponse(success: bool, message: string)
  datatype ListAccountsRequest = ListAccountsRequest(query: string, includeInactive: bool, pageSize: int, pageToken: string)
  datatype ListAccountsResponse = ListAccountsResponse(accounts: seq<AccountMessage>, nextPageToken: string, totalCount: int)
  datatype UpdateAccountRequest = UpdateAccountRequest(accountId: string, name: string, description: string)
  datatype UpdateAccountResponse = UpdateAccountResponse(account: AccountMessage)

  /** A handler's outcome: a response, or the failure status it throws. */
  datatype Result<T> = Ok(value: T) | InvalidArgument(message: string) | NotFound(message: string)

  /** The payloads the event publisher sends, keyed by account id. Null descriptions are sent as "". */
  datatype Event =
    | AccountCreated(accountId: string, name: string, description: string)
    | AccountUpdated(accountId: string, name: string, description: string)
    | AccountInactivated(accountId: string, reason: string)
    | AccountReactivated(accountId: string, reason: string)

  // ------------------------------------------------------- entity mapping

  /** An instant as epoch seconds plus the nanoseconds within the second. */
  function ToTimestamp(t: nat): (ts: Timestamp)
    ensures 0 <= ts.seconds && 0 <= ts.nanos < NANOS_PER_SECOND
    ensures ts.seconds * NANOS_PER_SECOND + ts.nanos == t
  {
    Timestamp(t / NANOS_PER_SECOND, t % NANOS_PER_SECOND)
  }

  /** The instant a timestamp denotes. */
  function FromTimestamp(ts: Timestamp): int {
    ts.seconds * NANOS_PER_SECOND + ts.nanos
  }

  /** Timestamps compare as the instants they stand for. */
  lemma TimestampPreservesOrder(t1: nat, t2: nat)
    ensures t1 <= t2 <==>
      var a, b := ToTimestamp(t1), ToTimestamp(t2);
      a.seconds < b.seconds || (a.seconds == b.seconds && a.nanos <= b.nanos)
  {
    var a, b := ToTimestamp(t1), ToTimestamp(t2);
    if a.seconds < b.seconds {
      assert (a.seconds + 1) * NANOS_PER_SECOND <= b.seconds * NANOS_PER_SECOND;
    } else if a.seconds > b.seconds {
      assert (b.seconds + 1) * NANOS_PER_SECOND <= a.seconds * NANOS_PER_SECOND;
    }
  }

  /** toProtoAccount: a null description becomes "", a null `active` becomes false, and each
      timestamp splits into seconds and nanoseconds. */
  function ToAccountMessage(a: Account): (msg: AccountMessage)
    ensures msg.accountId == a.accountId && msg.name == a.name
    ensures msg.description == a.description.GetOr("")
    ensures msg.active == a.active.GetOr(false)
    ensures FromTimestamp(msg.createdAt) == a.createdAt && FromTimestamp(msg.updatedAt) == a.updatedAt
  {
    AccountMessage(a.accountId, a.name, a.description.GetOr(""), a.active.GetOr(false),
                   ToTimestamp(a.createdAt), ToTimestamp(a.updatedAt))
  }

  /** For a stored row the message reports exactly whether the account is active, and its
      update time is never earlier than its creation time. */
  lemma MessageOfStoredRow(a: Account)
    requires a.WellFormed()
    ensures ToAccountMessage(a).active <==> a.IsActive()
    ensures FromTimestamp(ToAccountMessage(a).createdAt) <= FromTimestamp(ToAccountMessage(a).updatedAt)
  {
  }

  /** One message per row, in the rows' order. */
  function ToAccountMessages(rows: seq<Account>): (msgs: seq<AccountMessage>)
    ensures |msgs| == |rows|
  {
    if rows == [] then [] else [ToAccountMessage(rows[0])] + ToAccountMessages(rows[1..])
  }

  /** The message at each position is the mapping of the row at that position. */
  lemma {:induction false} MessageAt(rows: seq<Account>, i: int)
    requires 0 <= i < |rows|
    ensures ToAccountMessages(rows)[i] == ToAccountMessage(rows[i])
  {
    if i > 0 {
      MessageAt(rows[1..], i - 1);
    }
  }

  /** The messages of a window are the mappings of the rows in the window. */
  lemma MessagesOfPage(rows: seq<Account>, skip: nat, limit: nat, msgs: seq<AccountMessage>)
    requires msgs == ToAccountMessages(Page(rows, skip, limit))
    ensures |msgs| <= limit
    ensures |msgs| == (if skip >= |rows| then 0 else Min(limit, |rows| - skip))
    ensures forall i :: 0 <= i < |msgs| ==> msgs[i] == ToAccountMessage(rows[skip + i])
  {
    var page := Page(rows, skip, limit);
    forall i | 0 <= i < |page| ensures ToAccountMessages(page)[i] == ToAccountMessage(rows[skip + i]) {
      MessageAt(page, i);
    }
  }

  /** Mapping rows to messages commutes with concatenation. */
  lemma {:induction false} MessagesOfConcat(a: seq<Account>, b: seq<Account>)
    ensures ToAccountMessages(a + b) == ToAccountMessages(a) + ToAccountMessages(b)
  {
    if a == [] {
      assert a + b == b;
    } else {
      assert (a + b)[1..] == a[1..] + b;
      MessagesOfConcat(a[1..], b);
    }
  }

  // --------------------------------------------------------------- paging

  /** The page size the handler uses: the default for a missing or non-positive request, and
      never more than the maximum. */
  function EffectivePageSize(requested: int): (p: int)
    ensures 1 <= p <= MAX_PAGE_SIZE
    ensures requested <= 0 ==> p == DEFAULT_PAGE_SIZE
    ensures 0 < requested <= MAX_PAGE_SIZE ==> p == requested
    ensures MAX_PAGE_SIZE < requested ==> p == MAX_PAGE_SIZE
  {
    var p := if requested > 0 then requested else DEFAULT_PAGE_SIZE;
    if p > MAX_PAGE_SIZE then MAX_PAGE_SIZE else p
  }

  /** The row offset a page token stands for: the trimmed token read as a decimal int, or 0
      when the token is blank, is not a decimal int, or is negative. */
  function PageOffset(token: string): (offset: int)
    ensures 0 <= offset <= INT_MAX
  {
    if IsBlank(token) then 0
    else match ParseInt(Trim(token))
      case None => 0
      case Some(v) => if v < 0 then 0 else v
  }

  /** A blank token means the first row; a positive offset comes only from a token that parses
      to it; a token that parses to a non-negative int means that row. */
  lemma PageOffsetMeaning(token: string)
    ensures IsBlank(token) ==> PageOffset(token) == 0
    ensures PageOffset(token) > 0 ==> ParseInt(Trim(token)) == Some(PageOffset(token))
    ensures !IsBlank(token) && ParseInt(Trim(token)).Some? && ParseInt(Trim(token)).value >= 0 ==>
      PageOffset(token) == ParseInt(Trim(token)).value
  {
  }

  /** A token written as the decimal form of an offset is read back as that offset. */
  lemma PageOffsetOfDecimal(n: int)
    requires IsInt(n)
    ensures PageOffset(ToDecimal(n)) == if n < 0 then 0 else n
  {
    DecimalIsTrimmed(n);
    ParseIntOfDecimal(n);
  }

  /** The response of listAccounts, given every row the list query selects (its count is the
      count query's result). ListResponseMeaning states what it holds. */
  function ListResponse(selected: seq<Account>, req: ListAccountsRequest): ListAccountsResponse {
    var p := EffectivePageSize(req.pageSize);
    var o := PageOffset(req.pageToken);
    ListAccountsResponse(ToAccountMessages(Page(selected, o, p)),
                         NextPageToken(|selected| > o + p, o, p),
                         Min(|selected|, INT_MAX))
  }

  /** The response holds the page at the token's offset: at most a page of the selected rows,
      from the offset on. */
  lemma ListResponseRows(selected: seq<Account>, req: ListAccountsRequest)
    ensures var r, p, o := ListResponse(selected, req), EffectivePageSize(req.pageSize), PageOffset(req.pageToken);
      && |r.accounts| <= p
      && |r.accounts| == (if o >= |selected| then 0 else Min(p, |selected| - o))
      && (forall i :: 0 <= i < |r.accounts| ==> r.accounts[i] == ToAccountMessage(selected[o + i]))
  {
    var p, o := EffectivePageSize(req.pageSize), PageOffset(req.pageToken);
    MessagesOfPage(selected, o, p, ListResponse(selected, req).accounts);
  }

  /** The response carries a next-page token exactly when rows remain after the page, which
      resumes right after it, and the count capped at the largest int. */
  lemma ListResponseToken(selected: seq<Account>, req: ListAccountsRequest)
    ensures var r, p, o := ListResponse(selected, req), EffectivePageSize(req.pageSize), PageOffset(req.pageToken);
      && (r.nextPageToken != "" <==> |selected| > o + p)
      && (r.nextPageToken != "" ==> PageOffset(r.nextPageToken) == if o + p <= INT_MAX then o + p else 0)
      && r.totalCount == Min(|selected|, INT_MAX)
  {
    var p, o := EffectivePageSize(req.pageSize), PageOffset(req.pageToken);
    assert ListResponse(selected, req).nextPageToken == NextPageToken(|selected| > o + p, o, p);
    NextPageTokenReadsBack(|selected| > o + p, o, p);
  }

  /** Both halves together: what a list response holds. */
  lemma ListResponseMeaning(selected: seq<Account>, req: ListAccountsRequest)
    ensures var r, p, o := ListResponse(selected, req), EffectivePageSize(req.pageSize), PageOffset(req.pageToken);
      && |r.accounts| <= p
      && |r.accounts| == (if o >= |selected| then 0 else Min(p, |selected| - o))
      && (forall i :: 0 <= i < |r.accounts| ==> r.accounts[i] == ToAccountMessage(selected[o + i]))
      && (r.nextPageToken != "" <==> |selected| > o + p)
      && (r.nextPageToken != "" ==> PageOffset(r.nextPageToken) == if o + p <= INT_MAX then o + p else 0)
      && r.totalCount == Min(|selected|, INT_MAX)
  {
    ListResponseRows(selected, req);
    ListResponseToken(selected, req);
  }

  /** The next-page token: the int `offset + pageSize` in decimal when more rows remain, else
      empty. NextPageTokenReadsBack states where it resumes. */
  function NextPageToken(more: bool, offset: int, pageSize: int): (token: string)
    requires 0 <= offset <= INT_MAX && 1 <= pageSize <= MAX_PAGE_SIZE
    ensures token != "" <==> more
  {
    if more then ToDecimal(Wrap32(offset + pageSize)) else ""
  }

  /** Read back, a set token resumes right after the page, unless the int sum wraps around, in
      which case it reads as a negative offset and so restarts at the first row. */
  lemma NextPageTokenReadsBack(more: bool, offset: int, pageSize: int)
    requires 0 <= offset <= INT_MAX && 1 <= pageSize <= MAX_PAGE_SIZE
    ensures var token := NextPageToken(more, offset, pageSize);
      token != "" ==> PageOffset(token) == if offset + pageSize <= INT_MAX then offset + pageSize else 0
  {
    if more {
      var sum := offset + pageSize;
      var token := ToDecimal(Wrap32(sum));
      assert NextPageToken(more, offset, pageSize) == token;
      if sum > INT_MAX {
        assert PageOffset(token) == 0 by {
          WrapAboveMax(sum);
          PageOffsetOfDecimal(Wrap32(sum));
        }
      } else {
        assert PageOffset(token) == sum by {
          assert Wrap32(sum) == sum;
          PageOffsetOfDecimal(sum);
        }
      }
    }
  }

  /** Unfolds NextPageToken for a set token, for use in ResponseFromFetch. */
  lemma TokenIsIntSum(offset: int, pageSize: int)
    requires 0 <= offset <= INT_MAX && 1 <= pageSize <= MAX_PAGE_SIZE
    ensures NextPageToken(true, offset, pageSize) == ToDecimal(Wrap32(offset + pageSize))
  {
  }

  /** Fetching one row more than a page tells whether rows remain after the page, and cutting
      the fetched rows back to the page size leaves exactly the page. */
  lemma FetchOneMore(rows: seq<Account>, offset: nat, pageSize: nat)
    ensures var fetched := Page(rows, offset, pageSize + 1);
      && (|fetched| > pageSize <==> |rows| > offset + pageSize)
      && (if |fetched| > pageSize then fetched[..pageSize] else fetched) == Page(rows, offset, pageSize)
  {
    var fetched := Page(rows, offset, pageSize + 1);
    if |fetched| > pageSize {
      assert fetched[..pageSize] == Page(rows, offset, pageSize);
    } else {
      assert fetched == Page(rows, offset, pageSize);
    }
  }

  /** The handler's way of building the response, from one window of a page and one row more,
      yields the response defined above. */
  lemma ResponseFromFetch(selected: seq<Account>, req: ListAccountsRequest, pageSize: nat, offset: nat,
                          fetched: seq<Account>)
    requires pageSize == EffectivePageSize(req.pageSize) && offset == PageOffset(req.pageToken)
    requires fetched == Page(selected, offset, pageSize + 1)
    ensures ListResponse(selected, req) == ListAccountsResponse(
      ToAccountMessages(if |fetched| > pageSize then fetched[..pageSize] else fetched),
      if |fetched| > pageSize then ToDecimal(Wrap32(offset + pageSize)) else "",
      Min(|selected|, INT_MAX))
  {
    FetchOneMore(selected, offset, pageSize);
    var more := |fetched| > pageSize;
    var shown := if more then fetched[..pageSize] else fetched;
    assert shown == Page(selected, offset, pageSize);
    if more {
      TokenIsIntSum(offset, pageSize);
    }
    assert ListResponse(selected, req)
        == ListAccountsResponse(ToAccountMessages(shown), NextPageToken(more, offset, pageSize), Min(|selected|, INT_MAX));
  }

  /** Every account a client receives by starting from `req` and following each next-page token
      until none is returned, in order. */
  function Walk(selected: seq<Account>, req: ListAccountsRequest): seq<AccountMessage>
    requires |selected| <= INT_MAX
    decreases |selected| - PageOffset(req.pageToken)
  {
    var r := ListResponse(selected, req);
    if r.nextPageToken == "" then r.accounts
    else
      ListResponseToken(selected, req);
      r.accounts + Walk(selected, req.(pageToken := r.nextPageToken))
  }

  /** One step of the walk: the page at the token's offset, then, when a token is returned,
      the walk from the request carrying it, which resumes at the offset right after the page. */
  lemma WalkStep(selected: seq<Account>, req: ListAccountsRequest)
    returns (more: bool, next: int, req': ListAccountsRequest)
    requires |selected| <= INT_MAX
    requires PageOffset(req.pageToken) <= |selected|
    ensures !more ==> Walk(selected, req) == ToAccountMessages(selected[PageOffset(req.pageToken)..])
    ensures more ==>
      && PageOffset(req.pageToken) < next <= |selected| && next == PageOffset(req'.pageToken)
      && Walk(selected, req) == ToAccountMessages(selected[PageOffset(req.pageToken)..next]) + Walk(selected, req')
  {
    var o := PageOffset(req.pageToken);
    var p := EffectivePageSize(req.pageSize);
    var r := ListResponse(selected, req);
    assert r.accounts == ToAccountMessages(Page(selected, o, p));
    ListResponseToken(selected, req);
    more := r.nextPageToken != "";
    req' := req.(pageToken := r.nextPageToken);
    next := o + p;
    if !more {
      assert Page(selected, o, p) == selected[o..];
    } else {
      PageInside(selected, o, p);
    }
  }

  /** Paging through the listing from the token's offset visits every remaining selected
      account exactly once, in the listing's order; from the empty token, all of them. */
  lemma {:induction false} WalkVisitsEachOnce(selected: seq<Account>, req: ListAccountsRequest)
    requires |selected| <= INT_MAX
    requires PageOffset(req.pageToken) <= |selected|
    ensures Walk(selected, req) == ToAccountMessages(selected[PageOffset(req.pageToken)..])
    decreases |selected| - PageOffset(req.pageToken)
  {
    var more, next, req' := WalkStep(selected, req);
    if more {
      WalkVisitsEachOnce(selected, req');
      ChainPages(Walk(selected, req), Walk(selected, req'), selected, PageOffset(req.pageToken), next);
    }
  }

  /** The messages of the rows from `o` on are those up to `next` followed by those from `next` on. */
  lemma ChainPages(walk: seq<AccountMessage>, rest: seq<AccountMessage>, rows: seq<Account>, o: int, next: int)
    requires 0 <= o <= next <= |rows|
    requires walk == ToAccountMessages(rows[o..next]) + rest
    requires rest == ToAccountMessages(rows[next..])
    ensures walk == ToAccountMessages(rows[o..])
  {
    MessagesOfSplit(rows, o, next);
  }

  lemma MessagesOfSplit(rows: seq<Account>, i: nat, j: nat)
    requires i <= j <= |rows|
    ensures ToAccountMessages(rows[i..]) == ToAccountMessages(rows[i..j]) + ToAccountMessages(rows[j..])
  {
    assert rows[i..] == rows[i..j] + rows[j..];
    MessagesOfConcat(rows[i..j], rows[j..]);
  }

  /** The response builder's loop adding one message per fetched row, in order. */
  method BuildMessages(rows: seq<Account>) returns (messages: seq<AccountMessage>)
    ensures messages == ToAccountMessages(rows)
  {
    messages := [];
    var i := 0;
    while i < |rows|
      invariant 0 <= i <= |rows|
      invariant messages == ToAccountMessages(rows[..i])
    {
      assert rows[..i + 1] == rows[..i] + [rows[i]];
      MessagesOfConcat(rows[..i], [rows[i]]);
      assert ToAccountMessages([rows[i]]) == [ToAccountMessage(rows[i])];
      messages := messages + [ToAccountMessage(rows[i])];
      i := i + 1;
    }
    assert rows[..i] == rows;
  }

  /** The list handler's normalisation of the requested page size and of the page token. */
  method PageParameters(req: ListAccountsRequest) returns (pageSize: int, offset: int)
    ensures pageSize == EffectivePageSize(req.pageSize) && 1 <= pageSize <= MAX_PAGE_SIZE
    ensures offset == PageOffset(req.pageToken) && 0 <= offset <= INT_MAX
  {
    pageSize := if req.pageSize > 0 then req.pageSize else DEFAULT_PAGE_SIZE;
    if pageSize > MAX_PAGE_SIZE {
      pageSize := MAX_PAGE_SIZE;
    }

    offset := 0;
    if !IsBlank(req.pageToken) {
      var parsed := ParseInt(Trim(req.pageToken));
      if parsed.Some? {
        offset := parsed.value;
        if offset < 0 {
          offset := 0;
        }
      }
    }
  }

  // ------------------------------------------------------------ the class

  class AccountService {
    const repository: AccountRepository
    /** The events handed to the publisher, oldest first. */
    ghost var events: seq<Event>

    ghost predicate Valid()
      reads this, repository
    {
      repository.Valid()
    }

    constructor (repository: AccountRepository)
      requires repository.Valid()
      ensures this.repository == repository && events == [] && Valid()
    {
      this.repository := repository;
      events := [];
    }

    /** Creates the account unless it exists. Fails when the id or the name is empty; they are
        not trimmed. `firstRead` and `secondRead` are the clock readings a new row takes. */
    method CreateAccount(req: CreateAccountRequest, firstRead: nat, secondRead: nat, delivered: bool)
      returns (r: Result<CreateAccountResponse>)
      requires Valid() && NotAfter(repository.accounts, firstRead) && firstRead <= secondRead
      modifies this, repository
      ensures Valid() && Evolves(old(repository.accounts), repository.accounts)
      ensures req.accountId == "" ==> r == InvalidArgument(ID_REQUIRED)
      ensures req.accountId != "" && req.name == "" ==> r == InvalidArgument(NAME_REQUIRED)
      ensures r.InvalidArgument? ==>
        && repository.accounts == old(repository.accounts) && repository.order == old(repository.order)
        && events == old(events)
      ensures req.accountId != "" && req.name != "" ==>
        var created := req.accountId !in old(repository.accounts);
        && repository.accounts == Created(old(repository.accounts), req.accountId, req.name,
                                          Some(req.description), firstRead, secondRead)
        && repository.order == old(repository.order) + (if created then [req.accountId] else [])
        && r == Ok(CreateAccountResponse(ToAccountMessage(repository.accounts[req.accountId]), created))
        && events == old(events) +
             if created && delivered then [AccountCreated(req.accountId, req.name, req.description)] else []
    {
      if req.accountId == "" {
        return InvalidArgument(ID_REQUIRED);
      }
      if req.name == "" {
        return InvalidArgument(NAME_REQUIRED);
      }
      var existing := repository.FindByAccountId(req.accountId);
      var wasCreated := existing.None?;
      var account: Account;
      if wasCreated {
        account := repository.CreateAccount(req.accountId, req.name, Some(req.description), firstRead, secondRead);
      } else {
        account := existing.value;
      }
      if wasCreated && delivered {
        events := events + [AccountCreated(account.accountId, account.name, account.description.GetOr(""))];
      }
      r := Ok(CreateAccountResponse(ToAccountMessage(account), wasCreated));
    }

    /** The account, active or not, or NOT_FOUND. */
    method GetAccount(req: GetAccountRequest) returns (r: Result<AccountMessage>)
      requires Valid()
      ensures r.Ok? <==> req.accountId in repository.accounts
      ensures r.Ok? ==> r.value == ToAccountMessage(repository.accounts[req.accountId])
                        && r.value.active == repository.accounts[req.accountId].IsActive()
      ensures !r.Ok? ==> r == NotFound(NOT_FOUND_PREFIX + req.accountId)
    {
      var account := repository.FindByAccountId(req.accountId);
      if account.None? {
        return NotFound(NOT_FOUND_PREFIX + req.accountId);
      }
      r := Ok(ToAccountMessage(account.value));
    }

    /** Inactivates the account. Success, and an event carrying the reason, whenever the account
        exists, including when it already was inactive. */
    method InactivateAccount(req: InactivateAccountRequest, now: nat, delivered: bool)
      returns (r: InactivateAccountResponse)
      requires Valid() && NotAfter(repository.accounts, now)
      modifies this, repository
      ensures Valid() && Evolves(old(repository.accounts), repository.accounts)
      ensures repository.accounts == SetActive(old(repository.accounts), req.accountId, false, now)
      ensures repository.order == old(repository.order)
      ensures r.success <==> req.accountId in old(repository.accounts)
      ensures r.message == if r.success then INACTIVATED_MESSAGE else NOT_FOUND_PREFIX + req.accountId
      ensures r.drivesAffected == 0
      ensures events == old(events) +
        if r.success && delivered then [AccountInactivated(req.accountId, req.reason)] else []
    {
      var success := repository.InactivateAccount(req.accountId, Some(req.reason), now);
      if success {
        if delivered {
          events := events + [AccountInactivated(req.accountId, req.reason)];
        }
        r := InactivateAccountResponse(true, INACTIVATED_MESSAGE, 0);
      } else {
        r := InactivateAccountResponse(false, NOT_FOUND_PREFIX + req.accountId, 0);
      }
    }

    /** Reactivates the account; the mirror image of InactivateAccount. */
    method ReactivateAccount(req: ReactivateAccountRequest, now: nat, delivered: bool)
      returns (r: ReactivateAccountResponse)
      requires Valid() && NotAfter(repository.accounts, now)
      modifies this, repository
      ensures Valid() && Evolves(old(repository.accounts), repository.accounts)
      ensures repository.accounts == SetActive(old(repository.accounts), req.accountId, true, now)
      ensures repository.order == old(repository.order)
      ensures r.success <==> req.accountId in old(repository.accounts)
      ensures r.message == if r.success then REACTIVATED_MESSAGE else NOT_FOUND_PREFIX + req.accountId
      ensures events == old(events) +
        if r.success && delivered then [AccountReactivated(req.accountId, req.reason)] else []
    {
      var success := repository.ReactivateAccount(req.accountId, Some(req.reason), now);
      if success {
        if delivered {
          events := events + [AccountReactivated(req.accountId, req.reason)];
        }
        r := ReactivateAccountResponse(true, REACTIVATED_MESSAGE);
      } else {
        r := ReactivateAccountResponse(false, NOT_FOUND_PREFIX + req.accountId);
      }
    }

    /** One page of accounts: the trimmed query, the normalised page size and offset, one row
        more than a page fetched to decide whether a next page exists. */
    method ListAccounts(req: ListAccountsRequest) returns (r: ListAccountsResponse)
      requires Valid()
      ensures r == ListResponse(repository.Selected(Some(Trim(req.query)), req.includeInactive), req)
    {
      var query := Trim(req.query);
      var includeInactive := req.includeInactive;
      var pageSize, offset := PageParameters(req);

      ghost var selected := repository.Selected(Some(query), includeInactive);
      assert Max(offset, 0) == offset && Max(pageSize + 1, 1) == pageSize + 1;
      var accounts := repository.ListAccounts(Some(query), includeInactive, pageSize + 1, offset);
      ghost var fetched := accounts;
      assert fetched == Page(selected, offset, pageSize + 1);
      ResponseFromFetch(selected, req, pageSize, offset, fetched);
      var totalCount := repository.CountAccounts(Some(query), includeInactive);

      var nextPageToken := "";
      if |accounts| > pageSize {
        accounts := accounts[..pageSize];
        nextPageToken := ToDecimal(Wrap32(offset + pageSize));
      }
      assert ListResponse(selected, req)
          == ListAccountsResponse(ToAccountMessages(accounts), nextPageToken, Min(totalCount, INT_MAX));

      var messages := BuildMessages(accounts);
      r := ListAccountsResponse(messages, nextPageToken, Min(totalCount, INT_MAX));
    }

    /** Updates the name and the description. The id and name are trimmed and must not be
        empty; the description is passed as it is, so "" clears it. An event carrying the stored
        name and description follows every update that finds the account, changed or not. */
    method UpdateAccount(req: UpdateAccountRequest, now: nat, delivered: bool)
      returns (r: Result<UpdateAccountResponse>)
      requires Valid() && NotAfter(repository.accounts, now)
      modifies this, repository
      ensures Valid() && Evolves(old(repository.accounts), repository.accounts)
      ensures repository.order == old(repository.order)
      ensures Trim(req.accountId) == "" ==> r == InvalidArgument(ID_REQUIRED)
      ensures Trim(req.accountId) != "" && Trim(req.name) == "" ==> r == InvalidArgument(NAME_REQUIRED)
      ensures Trim(req.accountId) != "" && Trim(req.name) != "" && Trim(req.accountId) !in old(repository.accounts) ==>
        r == NotFound(NOT_FOUND_PREFIX + Trim(req.accountId))
      ensures Trim(req.accountId) != "" && Trim(req.name) != "" && Trim(req.accountId) in old(repository.accounts) ==> r.Ok?
      ensures !r.Ok? ==> repository.accounts == old(repository.accounts) && events == old(events)
      ensures r.Ok? ==>
        var id := Trim(req.accountId);
        && Trim(req.name) != "" && id in old(repository.accounts)
        && repository.accounts == Updated(old(repository.accounts), id, Some(Trim(req.name)), Some(req.description), now)
        && r.value == UpdateAccountResponse(ToAccountMessage(repository.accounts[id]))
        && events == old(events) +
             if delivered then [AccountUpdated(id, Trim(req.name), req.description)] else []
    {
      var accountId := Trim(req.accountId);
      var name := Trim(req.name);
      var description := req.description;
      if accountId == "" {
        return InvalidArgument(ID_REQUIRED);
      }
      if name == "" {
        return InvalidArgument(NAME_REQUIRED);
      }
      var updated := repository.UpdateAccount(accountId, Some(name), Some(description), now);
      if updated.None? {
        return NotFound(NOT_FOUND_PREFIX + accountId);
      }
      var account := updated.value;
      if delivered {
        events := events + [AccountUpdated(account.accountId, account.name, account.description.GetOr(""))];
      }
      r := Ok(UpdateAccountResponse(ToAccountMessage(account)));
    }
  }
}
