# Account service — a Dafny model

This project models the account lifecycle core of the account service: the
repository that stores tenant accounts (`AccountRepository`), the gRPC handler
class that validates requests and orchestrates the repository and the event
publisher (`AccountServiceImpl`), and the `Account` entity.

- `Options.dfy` — `Option`, standing for Java's nullable references.
- `JavaText.dfy` — the pieces of `java.lang` the core relies on:
  - `String.trim`, `String.isBlank`, `toLowerCase` (ASCII) and substring search;
  - `Integer.parseInt` and `String.valueOf(int)`, and their round trip;
  - 32-bit `int` wrap-around.
- `Accounts.dfy` — the `accounts` row and the three-argument constructor.
- `AccountQuery.dfy` — what the list and count JPQL queries mean:
  - the case-insensitive search on id or name, and the active-only filter;
  - `ORDER BY createdAt DESC`;
  - the `setFirstResult`/`setMaxResults` window.
- `Repository.dfy` — the `accounts` table as a map field of the class
  `AccountRepository`, with the same methods as the Java class.
  - Each state-changing method is proved against a pure transition function
    (`Created`, `SetActive`, `Updated`).
  - The idempotence laws are proved about those functions.
- `Service.dfy` — the class `AccountService` over the repository.
  - Every lifecycle event handed to the publisher is recorded in a ghost event log.
  - Page size, page token and the list response are pure functions.
  - `ListAccounts` keeps the handler's step-by-step computation: it fetches one row more than a page.
  - It is proved equal to the response defined by the window of the full selection.
  - A client that follows the next-page tokens receives every selected account exactly once, in order.

Time is a natural number of nanoseconds since the epoch. Every clock reading is
a parameter. Mutating operations require that the reading is not earlier than
any time stored in the table (`NotAfter`). Under that precondition the store
keeps `createdAt <= updatedAt` for every row, and no update time ever moves back
(`Evolves`).

In three places the model follows the code where its Javadoc, or a reader, might expect otherwise:

- The Javadoc of the repository's `inactivateAccount` and `reactivateAccount`
  says they set the flag and update `updatedAt`, and calls them idempotent
  (AccountRepository.java:84-96 and 122-132). On an account already in the
  requested state the code returns true and leaves the row alone, `updatedAt`
  included (AccountRepository.java:105-108 and 141-144). The handlers
  nevertheless publish an "inactivated" or "reactivated" event whenever the
  repository returns true, so a repeated call publishes again although nothing
  changed (AccountServiceImpl.java:184-199).
- `updateAccount` publishes an "updated" event on every update that finds the
  account, even when nothing changed (AccountServiceImpl.java:324-337).
- The handler passes `request.getDescription()` to the repository. A protobuf
  getter returns "" for an unset field, so an update request without a
  description clears the stored description rather than leaving it unchanged.
  The repository itself leaves the description unchanged only for a null
  argument (AccountRepository.java:178).

The next-page token is `String.valueOf(offset + pageSize)` computed in `int`.
`Service.NextPageTokenReadsBack` states what that token reads back as: `offset + pageSize`,
or 0 when the sum overflows. An overflow needs more than 2^31 selected rows.
A wrapped token arises only at an offset where `offset + pageSize` exceeds
`INT_MAX` while the selection holds more than `offset + pageSize` rows. The handler
then reads the negative token as offset 0, so a client that follows the tokens
restarts at the first row and pages forever. `Service.NextPageToken` models the
code as written, overflow included; `Service.Walk` and
`Service.WalkVisitsEachOnce` require at most `INT_MAX` selected rows, which
rules that case out.

## Model

| member | source | states |
|---|---|---|
| Accounts.NewAccount | src/main/java/ai/pipestream/account/entity/Account.java:78-85 | the constructor copies id, name and description verbatim; the new account is active, its times are the two successive clock readings, so `createdAt <= updatedAt` |
| JavaText.Wrap32 | src/main/java/ai/pipestream/account/services/AccountServiceImpl.java:290 | an `int` sum is the true sum reduced modulo 2^32 into the int range, and equals the true sum whenever that fits |
| JavaText.Trim | src/main/java/ai/pipestream/account/services/AccountServiceImpl.java:311-312 | `trim` removes only characters up to U+0020, and only at the two ends, and leaves none at either end |
| JavaText.IsWhitespace | src/main/java/ai/pipestream/account/services/AccountServiceImpl.java:270 | `Character.isWhitespace` (behind `isBlank`): an ASCII whitespace character is also one `trim` removes; no whitespace character is a digit or a sign, or changes under lower-casing |
| JavaText.TrimsToEmptyIffAllTrimmable | src/main/java/ai/pipestream/account/repository/AccountRepository.java:208 | `trim` yields "" exactly when every character of the string is at most U+0020 |
| JavaText.AsciiBlankTrimsToEmpty | src/main/java/ai/pipestream/account/repository/AccountRepository.java:208 | an ASCII string that `isBlank` accepts trims to "" |
| JavaText.ControlCharIsNotBlankButTrims | src/main/java/ai/pipestream/account/repository/AccountRepository.java:208-225 | `isBlank` and `trim` disagree: "\u0001" is not blank, so the search clause is added, yet it trims to "" |
| JavaText.UnicodeSpaceIsBlankButStays | src/main/java/ai/pipestream/account/services/AccountServiceImpl.java:270-272 | `isBlank` and `trim` disagree the other way: "\u2000" is blank, yet `trim` leaves it as it is |
| JavaText.TrimIdempotent | src/main/java/ai/pipestream/account/repository/AccountRepository.java:225 | trimming an already trimmed query (the handler trims, then the repository trims again) changes nothing |
| JavaText.ToLowerAscii | src/main/java/ai/pipestream/account/repository/AccountRepository.java:225 | lower-casing keeps the length and maps each character independently |
| JavaText.LowerIdempotent | src/main/java/ai/pipestream/account/repository/AccountRepository.java:209-225 | lower-casing a lower-cased string changes nothing, so `LOWER` of the columns and `toLowerCase` of the term agree |
| JavaText.TrimIgnoresCase | src/main/java/ai/pipestream/account/repository/AccountRepository.java:225 | trimming and lower-casing commute |
| JavaText.BlankIgnoresCase | src/main/java/ai/pipestream/account/repository/AccountRepository.java:208 | a string is blank exactly when its lower-cased form is |
| JavaText.ContainsIffOccurs | src/main/java/ai/pipestream/account/repository/AccountRepository.java:209 | the substring test used for `LIKE '%term%'` holds exactly when the term occurs at some position |
| JavaText.ParseInt | src/main/java/ai/pipestream/account/services/AccountServiceImpl.java:272 | `Integer.parseInt` yields a value only in the int range, and only for a non-empty string of a sign or digit followed by digits alone, with at least one digit after a sign |
| JavaText.ToDecimal | src/main/java/ai/pipestream/account/services/AccountServiceImpl.java:290 | `String.valueOf(int)` writes at least one character, a leading minus exactly for a negative number, and digits otherwise |
| JavaText.DigitsValueOfDecimal | src/main/java/ai/pipestream/account/services/AccountServiceImpl.java:290 | the digits `String.valueOf` writes for a natural number denote that number |
| JavaText.ParseIntOfDecimal | src/main/java/ai/pipestream/account/services/AccountServiceImpl.java:272 | `Integer.parseInt(String.valueOf(n)) == n` for every int `n`, negative ones included |
| JavaText.DecimalIsTrimmed | src/main/java/ai/pipestream/account/services/AccountServiceImpl.java:296 | the decimal form of a number is never blank, so a computed token is always set, and `trim` leaves it as it is |
| AccountQuery.SearchTerm | src/main/java/ai/pipestream/account/repository/AccountRepository.java:224-225 | no search clause exactly when the query is null or blank; otherwise the term is the trimmed, lower-cased query, and is already lower case |
| AccountQuery.SearchIgnoresQueryCase | src/main/java/ai/pipestream/account/repository/AccountRepository.java:224-225 | a query and its lower-cased form give the same search term |
| AccountQuery.MatchesIgnoresQueryCase | src/main/java/ai/pipestream/account/repository/AccountRepository.java:208-216 | a query and its lower-cased form match the same rows |
| AccountQuery.ControlCharQueryMatchesAll | src/main/java/ai/pipestream/account/repository/AccountRepository.java:208-225 | the query "\u0001" keeps the search clause but binds the term "", so every row matches the text search |
| AccountQuery.MatchesTextMeaning | src/main/java/ai/pipestream/account/repository/AccountRepository.java:208-211 | with a term, a row matches exactly when the term occurs in the lower-cased id or the lower-cased name; without one, every row does |
| AccountQuery.Filter | src/main/java/ai/pipestream/account/repository/AccountRepository.java:205-216 | the rows kept are exactly those that satisfy the WHERE clause; no row is invented or duplicated |
| AccountQuery.InsertNewestFirst | src/main/java/ai/pipestream/account/repository/AccountRepository.java:218 | inserting into a newest-first sequence keeps it newest first and adds exactly that row |
| AccountQuery.SortNewestFirst | src/main/java/ai/pipestream/account/repository/AccountRepository.java:218 | `ORDER BY createdAt DESC`: the result is in non-increasing creation time and is a permutation of the input |
| AccountQuery.FilterKeepsDistinctIds | src/main/java/ai/pipestream/account/entity/Account.java:27-29 | filtering rows with distinct ids keeps them distinct |
| AccountQuery.SortKeepsDistinctIds | src/main/java/ai/pipestream/account/entity/Account.java:27-29 | sorting rows with distinct ids keeps them distinct |
| AccountQuery.Page | src/main/java/ai/pipestream/account/repository/AccountRepository.java:221-222 | the window holds at most `limit` rows, exactly as many as remain after `skip` up to that limit, and they are the rows from `skip` on, in order |
| AccountQuery.PagesConcatenate | src/main/java/ai/pipestream/account/repository/AccountRepository.java:221-222 | two consecutive windows read exactly the rows of one window as long as both together |
| AccountQuery.Listing | src/main/java/ai/pipestream/account/repository/AccountRepository.java:205-218 | the full result of the list query is newest first, holds exactly the rows that match, one per matching row, with distinct ids |
| AccountQuery.BlankQueryMatchesByStatus | src/main/java/ai/pipestream/account/repository/AccountRepository.java:208-216 | with a null or blank query only the active-only restriction filters |
| AccountQuery.IncludeInactiveWidens | src/main/java/ai/pipestream/account/repository/AccountRepository.java:213-216 | the active-only listing is exactly the active part of the listing that includes inactive accounts |
| Repository.RowsHaveDistinctIds | src/main/java/ai/pipestream/account/entity/Account.java:27-29 | the primary key makes the table hold at most one row per account id |
| Repository.FilterCountsMatchingIds | src/main/java/ai/pipestream/account/repository/AccountRepository.java:236-247 | filtering the table's rows keeps exactly one row per matching account id |
| Repository.Created | src/main/java/ai/pipestream/account/repository/AccountRepository.java:49-59 | an existing row stays as it is; otherwise exactly one new active row with the given id, name and description is added; no other row changes; the store invariant and monotone times are kept |
| Repository.SetActive | src/main/java/ai/pipestream/account/repository/AccountRepository.java:98-119 | an absent id or a row already in the wanted state leaves the store untouched, `updatedAt` included; otherwise only that row's `active` and `updatedAt` change |
| Repository.Updated | src/main/java/ai/pipestream/account/repository/AccountRepository.java:164-191 | non-null arguments replace name and description, "" clears it; id, `active` and `createdAt` never change; `updatedAt` becomes `now` exactly when a field changed; no other row changes |
| Repository.CreateIsIdempotent | src/main/java/ai/pipestream/account/repository/AccountRepository.java:49-54 | a second create of the same id changes nothing; the first name and description stay |
| Repository.SetActiveIsIdempotent | src/main/java/ai/pipestream/account/repository/AccountRepository.java:105-108 | inactivating (or reactivating) twice equals doing it once; the second call leaves `updatedAt` alone |
| Repository.ReactivateUndoesInactivate | src/main/java/ai/pipestream/account/repository/AccountRepository.java:141-148 | reactivating after inactivating an active account restores every field but `updatedAt` |
| Repository.UpdateIsIdempotent | src/main/java/ai/pipestream/account/repository/AccountRepository.java:171-189 | repeating an update changes nothing, `updatedAt` included |
| Repository.UpdateWithSameValuesIsNoOp | src/main/java/ai/pipestream/account/repository/AccountRepository.java:183-189 | an update with the stored name and description leaves the table exactly as it was |
| Repository.AccountRepository.Selected | src/main/java/ai/pipestream/account/repository/AccountRepository.java:204-218 | what the list query selects: newest first, distinct ids, exactly the stored rows that match, as many as there are matching ids |
| Repository.AccountRepository.FindByAccountId | src/main/java/ai/pipestream/account/repository/AccountRepository.java:71-81 | returns the stored row whatever its `active` value, or null exactly when the id is absent; changes nothing |
| Repository.AccountRepository.CreateAccount | src/main/java/ai/pipestream/account/repository/AccountRepository.java:48-60 | the table becomes `Created(old table, ...)`; returns the stored row, which is the pre-existing one when the id was present |
| Repository.AccountRepository.InactivateAccount | src/main/java/ai/pipestream/account/repository/AccountRepository.java:97-120 | returns true exactly when the id exists; the table becomes `SetActive(old table, id, false, now)` |
| Repository.AccountRepository.ReactivateAccount | src/main/java/ai/pipestream/account/repository/AccountRepository.java:133-153 | returns true exactly when the id exists; the table becomes `SetActive(old table, id, true, now)` |
| Repository.AccountRepository.UpdateAccount | src/main/java/ai/pipestream/account/repository/AccountRepository.java:163-192 | returns the stored row, or null exactly when the id is absent; the table becomes `Updated(old table, ...)` |
| Repository.AccountRepository.ListAccounts | src/main/java/ai/pipestream/account/repository/AccountRepository.java:203-229 | the window of the selection from `max(offset, 0)` with at most `max(pageSize, 1)` rows, newest first, each a stored row that matches |
| Repository.AccountRepository.CountAccounts | src/main/java/ai/pipestream/account/repository/AccountRepository.java:234-256 | the number of stored rows that satisfy the list query's WHERE clause, whatever the window |
| Service.ToTimestamp | src/main/java/ai/pipestream/account/services/AccountServiceImpl.java:372-379 | an instant splits into epoch seconds and nanoseconds below 10^9 that add back up to it |
| Service.TimestampPreservesOrder | src/main/java/ai/pipestream/account/services/AccountServiceImpl.java:372-379 | timestamps compare lexicographically exactly as the instants they stand for |
| Service.ToAccountMessage | src/main/java/ai/pipestream/account/services/AccountServiceImpl.java:363-381 | id and name are copied, a null description becomes "", a null `active` becomes false, and both times are carried exactly |
| Service.MessageOfStoredRow | src/main/java/ai/pipestream/account/services/AccountServiceImpl.java:364 | for a stored row the message's `active` is exactly whether the account is active, and its update time is not before its creation time |
| Service.ToAccountMessages | src/main/java/ai/pipestream/account/services/AccountServiceImpl.java:300-302 | exactly one message per row (MessageAt gives the order) |
| Service.MessageAt | src/main/java/ai/pipestream/account/services/AccountServiceImpl.java:300-302 | the message at each position is the mapping of the row at that position |
| Service.MessagesOfConcat | src/main/java/ai/pipestream/account/services/AccountServiceImpl.java:300-302 | mapping rows to messages commutes with concatenating the rows |
| Service.MessagesOfPage | src/main/java/ai/pipestream/account/services/AccountServiceImpl.java:284-302 | the messages of a window are the mappings of the rows from the offset on |
| Service.EffectivePageSize | src/main/java/ai/pipestream/account/services/AccountServiceImpl.java:263-266 | the page size is 50 for a request of 0 or less, the request itself up to 200, and 200 above; so always in [1, 200] |
| Service.PageOffset | src/main/java/ai/pipestream/account/services/AccountServiceImpl.java:268-279 | the offset is always in [0, INT_MAX] |
| Service.PageOffsetMeaning | src/main/java/ai/pipestream/account/services/AccountServiceImpl.java:268-279 | the offset is 0 for a blank token; a positive offset comes only from a trimmed token that parses to it; a token that parses to a non-negative int gives that int |
| Service.PageOffsetOfDecimal | src/main/java/ai/pipestream/account/services/AccountServiceImpl.java:290 | a token written as the decimal form of an int reads back as that int, or as 0 if it is negative |
| Service.ListResponseRows | src/main/java/ai/pipestream/account/services/AccountServiceImpl.java:284-302 | the response holds at most a page, exactly as many accounts as remain after the offset up to a page, and they are the selected rows from the offset on, in order |
| Service.ListResponseToken | src/main/java/ai/pipestream/account/services/AccountServiceImpl.java:285-298 | a next-page token exactly when rows remain after the page, resuming right after it (or at 0 on int overflow); the total count capped at INT_MAX |
| Service.ListResponseMeaning | src/main/java/ai/pipestream/account/services/AccountServiceImpl.java:284-298 | at most one page of accounts, the selected ones from the offset on; a next-page token exactly when rows remain after the page, resuming right after it; the total count capped at INT_MAX |
| Service.PageParameters | src/main/java/ai/pipestream/account/services/AccountServiceImpl.java:263-279 | the handler's if-chains compute exactly `EffectivePageSize` of the requested size and `PageOffset` of the token |
| Service.NextPageToken | src/main/java/ai/pipestream/account/services/AccountServiceImpl.java:287-291 | the token is set exactly when more rows remain |
| Service.NextPageTokenReadsBack | src/main/java/ai/pipestream/account/services/AccountServiceImpl.java:268-290 | a set token reads back as `offset + pageSize`, or as 0 when that int sum overflows |
| Service.FetchOneMore | src/main/java/ai/pipestream/account/services/AccountServiceImpl.java:284-291 | fetching `pageSize + 1` rows returns more than a page exactly when rows remain after the page, and cutting back to `pageSize` leaves exactly the page |
| Service.ResponseFromFetch | src/main/java/ai/pipestream/account/services/AccountServiceImpl.java:284-302 | building the response from the over-fetched rows gives the response defined by the page window |
| Service.WalkVisitsEachOnce | src/main/java/ai/pipestream/account/services/AccountServiceImpl.java:268-298 | following next-page tokens from a token's offset until none is returned yields every remaining selected account exactly once, in order |
| Service.BuildMessages | src/main/java/ai/pipestream/account/services/AccountServiceImpl.java:300-302 | the loop adds one message per fetched row, in order |
| Service.AccountService.CreateAccount | src/main/java/ai/pipestream/account/services/AccountServiceImpl.java:83-135 | empty id or name (not trimmed) fails with the fixed message and changes nothing; otherwise the table becomes `Created(...)`; `created` is true exactly when the id was absent; a "created" event only then, unless publishing fails |
| Service.AccountService.GetAccount | src/main/java/ai/pipestream/account/services/AccountServiceImpl.java:148-164 | the stored account, active or not, or NOT_FOUND "Account not found: id" exactly when absent |
| Service.AccountService.InactivateAccount | src/main/java/ai/pipestream/account/services/AccountServiceImpl.java:179-214 | success exactly when the account exists; the fixed success or not-found message; `drivesAffected` is 0; an event with the reason whenever successful, including the already-inactive case |
| Service.AccountService.ReactivateAccount | src/main/java/ai/pipestream/account/services/AccountServiceImpl.java:226-255 | success exactly when the account exists; the fixed messages; an event with the reason whenever successful, including the already-active case |
| Service.AccountService.ListAccounts | src/main/java/ai/pipestream/account/services/AccountServiceImpl.java:258-306 | the step-by-step handler (trimmed query, normalised size and offset, over-fetch, cut, loop over messages) returns exactly `ListResponse` of the repository's selection |
| Service.AccountService.UpdateAccount | src/main/java/ai/pipestream/account/services/AccountServiceImpl.java:309-343 | id and name are trimmed and rejected when empty; absent id gives NOT_FOUND; success exactly when the trimmed id and name are non-empty and the account exists, and then the table becomes `Updated(...)` with the request's description, and an "updated" event carrying the stored name and description follows every success |

## Left out

- Mutiny `Uni`, worker-pool scheduling, gRPC status exceptions and protobuf
  builders: each handler is a method returning a `Result` (`Ok`,
  `InvalidArgument` or `NotFound`) or the response record.
- JPA, the `EntityManager`, the JPQL text, `persist()` and `@Transactional`:
  the table is a map.
  - Only the meaning of the two queries is modelled.
  - A row is replaced in the map where the source mutates a managed entity in place.
- Concurrency, transaction isolation and the race in the handler's find-then-create: the model is sequential.
- The wall clock and time zones: clock readings are parameters.
  - Instants before the epoch are not modelled.
  - Database truncation of the fractional second is not modelled.
- The `%`, `_` and `\` (MySQL's default LIKE escape character) in a search
  query are not escaped, and act as LIKE wildcards or escapes in the database. The model treats the pattern as plain substring search.
- SQL `LOWER` and Java `toLowerCase` are modelled as ASCII lower-casing. Their
  collation- and locale-dependent Unicode behaviour is not modelled.
- JavaText.ParseInt: `Integer.parseInt` also accepts non-ASCII Unicode decimal
  digits; the model accepts ASCII digits only.
- The database promises no order among accounts with equal `createdAt`. The model fixes one order (insertion order, kept by a stable sort).
  - Service.WalkVisitsEachOnce assumes that order is the same for every page request.
- AccountEventPublisher.java (Kafka emitter, event ids, timestamps, keys) is
  not part of this model. Published events are a ghost log on the service. A
  publisher exception, which the handlers swallow, is the parameter
  `delivered == false`; the handler then returns the same response and records no event.
- The publisher's null-to-"" rule applies only to values that are never null
  here (a protobuf reason, a description set by the request): the event
  payloads are plain strings.
- The `reason` argument of the repository's inactivate/reactivate is only
  logged; it is accepted and ignored. Logging is left out everywhere.
- The no-argument JPA constructor of `Account` is not modelled; the default it relies on (`active = true`) is `Accounts.DEFAULT_ACTIVE`.
- Null request fields: protobuf getters never return null, so the handlers'
  null checks are unreachable and requests carry plain strings. The repository
  still takes nullable arguments as `Option`.
- The disabled S3 bucket creation code.
