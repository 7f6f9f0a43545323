# Subscription service core, modelled in Dafny

This project models the domain core of a small CRUD service for recurring
subscriptions. A subscription has a service name, a monthly price, an owner (a
UUID), a start month, an optional end month and two timestamps. The model
covers five layers of the service:

- the month codec that reads and writes `MM-YYYY`;
- the validator that turns a raw request into a record or an
  `InvalidArgument` error;
- the service that sits between the HTTP layer and the store;
- the store itself;
- the mapping from errors to HTTP status codes, and from records to response
  bodies.

The model is organised in these modules:

- `Wrappers`: `Option` and `Result`.
- `Strings`: Go's `strings.TrimSpace` over Unicode white space, and `len` as
  the UTF-8 byte count.
- `MonthDate`: `ParseMonthDate` and `FormatMonthDate`. A month is the pair
  (year 0..9999, month 1..12), which names the first instant of that month in
  UTC. Go's zero `time.Time` is January of year 1, so it is `Zero`.
- `Uuid`: the `uuid.Parse` and `String` of the identifier library the
  validator calls. It accepts the canonical 36-character form, the 32-digit
  hex form, the braced form and the `urn:uuid:` form.
- `Domain`: the error sentinels, the Subscription entity and the request
  and filter records.
- `Validation`: `validateInput` and `validateDomain`. The chain is split in
  two steps:
  - `Read` computes the trimmed name and the three parses;
  - `Decide` runs the checks in Go's order.

  The rank-based `FirstFailing` predicate specifies that the first failing
  check wins.
- `Repository`: the Postgres repository as an in-memory reference store, a
  class `Store`. Its fields are:
  - `rows`: a map from id to row;
  - `order`: the ids in insertion order;
  - `clock`: the source of `NOW()`, which ticks on every insert and update.

  `List` walks the table newest first in a loop, filtering and paging.
  `Summary` advances a month cursor from the start of the range to its end.
- `UseCase`: the class `Service`, which holds the store it is built with.
- `Transport`: `handleError` and `domainToResponse`.

Where the written description of the service and the Go code differ, the model
follows the code:

- The nil UUID is rejected only by `validateDomain`, after the date checks,
  not together with malformed identifiers.
- The start "01-0001" is a well-formed month, but it is Go's zero instant.
  So it is rejected with "start_date is required", and as a bound of a
  summary it counts as missing.
- An end date of "01-0001" is accepted when the start lies in year 0. Such an
  end is shown as the empty string in a response (`Transport.ZeroEndShownBlank`).

## Model

| member | source | states |
|---|---|---|
| MonthDate.Next | internal/repository/postgres/subscription_repo.go:193 | the month `interval '1 month'` reaches is the next month index, still a valid month |
| MonthDate.Parse | internal/usecase/date.go:11-17 | every failure carries the one detail "invalid month format, expected MM-YYYY"; an accepted text has exactly seven characters |
| MonthDate.Layout | internal/usecase/date.go:8 | the layout "01-2006" writes seven characters: digits everywhere but a hyphen at position 2 |
| MonthDate.Format | internal/usecase/date.go:19-24 | the result is empty exactly for the zero instant; otherwise a seven-character MM-YYYY text |
| MonthDate.IndexInjective | internal/usecase/date.go:16 | two month boundaries with the same month index are the same instant |
| MonthDate.ParseShape | internal/usecase/date.go:8-15 | Parse succeeds iff the text is exactly two digits naming 01..12, a hyphen and four digits |
| MonthDate.ParseValue | internal/usecase/date.go:16 | a successful parse is the month and year its digits spell |
| MonthDate.ParseLayout | internal/usecase/date.go:16-23 | parsing the layout of any month gives that month |
| MonthDate.LayoutParse | internal/usecase/date.go:16-23 | laying out an accepted text gives the text back |
| MonthDate.ParseAcceptsLayouts | internal/usecase/date.go:11-17 | Parse accepts exactly the texts some month lays out as |
| MonthDate.FormatParse | internal/usecase/date.go:16-23 | Format(Parse(s)) == s for every accepted s, except "01-0001", which formats as "" |
| MonthDate.ParseFormat | internal/usecase/date.go:16-23 | Parse(Format(d)) == d for every non-zero month |
| MonthDate.ParseRejects | internal/usecase/date.go:12-15 | "7-2025", "13-2025", "00-2025", "2025-07", "", "07-2025 " and "01-07-2025" are rejected |
| MonthDate.ParseAccepts | internal/usecase/date.go:16 | "07-2025" is July 2025, "12-0000" is December of year 0, "01-0001" is the zero instant |
| Strings.CharBytes | internal/usecase/validation.go:15 | a character takes 1..4 bytes in UTF-8, and 1 exactly when it is ASCII |
| Strings.ByteLenBounds | internal/usecase/validation.go:15 | `len` lies between the rune count and four times it, and equals the rune count exactly for ASCII text |
| Strings.TrimLeftCut | internal/usecase/validation.go:14 | trimming on the left removes a prefix of white space and stops at a character that is not white space |
| Strings.TrimRightCut | internal/usecase/validation.go:14 | trimming on the right removes a suffix of white space and stops at a character that is not white space |
| Strings.TrimSpaceCut | internal/usecase/validation.go:14-33 | TrimSpace is a slice with only white space cut on each side, and it neither starts nor ends in white space |
| Strings.TrimSpaceEmpty | internal/usecase/validation.go:33 | a text trims to "" iff it is all white space |
| Strings.TrimSpaceTrimmed | internal/usecase/validation.go:14 | a text without white space at its ends trims to itself |
| Strings.TrimSpaceIdempotent | internal/usecase/validation.go:14 | trimming twice is trimming once |
| Uuid.HexValue | internal/usecase/validation.go:22 | a hex digit's value is below 16 |
| Uuid.HexDigit | internal/usecase/validation.go:22 | the lower-case digit written for a nibble is a hex digit whose value is that nibble |
| Uuid.Parse | internal/usecase/validation.go:22-25 | a parsed identifier came from ASCII text of length 32, 36, 38 or 45 |
| Uuid.String | internal/transport/http/middleware.go:85-88 | the canonical text has 36 characters |
| Uuid.HexAt | internal/transport/http/middleware.go:85 | each byte is written as its two hex digits, high nibble first |
| Uuid.StringGroups | internal/transport/http/middleware.go:85 | the canonical text is the five hex groups 4-2-2-2-6 bytes long, with hyphens at 8, 13, 18 and 23 |
| Uuid.StringAt | internal/transport/http/middleware.go:85 | byte i sits at its fixed offset in the canonical text as two hex digits |
| Uuid.StringShape | internal/transport/http/middleware.go:85 | the canonical text is ASCII and has hyphens exactly at the dash positions |
| Uuid.XToBDigits | internal/usecase/validation.go:22 | decoding the two digits written for a byte gives the byte |
| Uuid.ParseCanonicalString | internal/usecase/validation.go:22 | the canonical reader gives back the identifier whose text it reads |
| Uuid.ParseString | internal/usecase/validation.go:22 | Parse(String(u)) == u for every identifier |
| Uuid.ParseBraced | internal/usecase/validation.go:22 | the braced form "{…}" parses to the same identifier |
| Uuid.ParseUrn | internal/usecase/validation.go:22 | any ASCII case variant of "urn:uuid:" before the canonical text parses to the same identifier |
| Uuid.UrnPrefixes | internal/usecase/validation.go:22 | "urn:uuid:" and "URN:UUID:" are both accepted prefixes |
| Uuid.ParseHexForm | internal/usecase/validation.go:22 | the 32 hex digits without hyphens parse to the same identifier |
| Uuid.ParseRejects | internal/usecase/validation.go:22-25 | the empty text, a word and a canonical text one digit short are rejected |
| Domain.InvalidArgumentError | internal/usecase/validation.go:16 | the wrapped error is classified InvalidArgument and carries the detail |
| Validation.ValidateDomain | internal/usecase/validation.go:57-65 | accepts iff the owner is not nil and the start is not the zero instant; every failure is InvalidArgument |
| Validation.ParseEndDate | internal/usecase/validation.go:32-39 | no end exactly when none is given or it is blank; a given end is parsed untrimmed, and its failure is the month format error |
| Validation.Decide | internal/usecase/validation.go:13-55 | every failure is InvalidArgument; success is a well-formed record with nil id and zero timestamps, whose fields are what was read |
| Validation.ValidateInput | internal/usecase/validation.go:13-55 | every failure is InvalidArgument; success is a well-formed record with the trimmed name, the input's price, the parsed owner, start and end, and nil id and zero timestamps |
| Validation.ValidatedNameTrimmed | internal/usecase/validation.go:14-45 | the stored name is already trimmed |
| Validation.DecideIsFirstFailure | internal/usecase/validation.go:13-65 | the validator succeeds iff every check passes; otherwise it reports the detail of the first check that fails, in the order name, price, owner syntax, start, end, ordering, nil owner, zero start |
| Validation.FirstFailingExists | internal/usecase/validation.go:13-65 | whenever a check fails, a first failing check exists at or before it |
| Validation.ShortNameRejected | internal/usecase/validation.go:14-17 | a trimmed name of fewer than 3 bytes is rejected first, whatever else the input holds |
| Validation.NonPositivePriceRejected | internal/usecase/validation.go:18-20 | a price of 0 or less is rejected once the name passes |
| Validation.BadUserIdRejected | internal/usecase/validation.go:22-25 | an owner that does not parse is rejected next |
| Validation.NilUserIdRejectedLate | internal/usecase/validation.go:22-60 | the nil owner passes the syntax check and is rejected by validateDomain |
| Validation.ZeroStartRejectedLast | internal/usecase/validation.go:27-63 | the start "01-0001" parses, and it is rejected by the last check |
| Validation.BadEndRejected | internal/usecase/validation.go:32-37 | a given end that does not parse as written is rejected |
| Validation.EndBeforeStartRejected | internal/usecase/validation.go:40-42 | an end before the start is rejected |
| Validation.EndEqualStartAccepted | internal/usecase/validation.go:40-54 | an end equal to the start is accepted and kept |
| Validation.NoEndAccepted | internal/usecase/validation.go:32-54 | a missing or blank end gives a record without an end |
| Validation.NameExamples | internal/usecase/validation.go:14-17 | "ab" and " ab " are too short, "abc" has 3 bytes, and " abc " is stored as "abc" |
| Validation.EndDateExamples | internal/usecase/validation.go:33-35 | "  " is blank, while " 07-2025" is given and does not parse |
| Repository.Newest | internal/repository/postgres/subscription_repo.go:146 | the table read newest first has one row per stored id |
| Repository.NewestAt | internal/repository/postgres/subscription_repo.go:146 | position k of that reading is the k-th id from the end of insertion order |
| Repository.NewestTable | internal/repository/postgres/subscription_repo.go:141-146 | in a consistent store, the newest-first reading is in strictly decreasing created_at and holds exactly the stored rows |
| Repository.Filter | internal/repository/postgres/subscription_repo.go:144-145 | filtering never lengthens the rows |
| Repository.FilterSnoc | internal/repository/postgres/subscription_repo.go:144-145 | filtering one more row appends it exactly when it matches |
| Repository.FilterKeeps | internal/repository/postgres/subscription_repo.go:144-145 | a row is in the filtered rows iff it is in the input and matches the filter |
| Repository.FilterSorted | internal/repository/postgres/subscription_repo.go:144-146 | filtering keeps newest-first order |
| Repository.EffectiveLimit | internal/repository/postgres/subscription_repo.go:150-153 | the page size is the request when it is in 1..100, and 20 otherwise |
| Repository.EffectiveOffset | internal/repository/postgres/subscription_repo.go:154-157 | the offset is the request floored at 0 |
| Repository.Page | internal/repository/postgres/subscription_repo.go:147 | a page is no longer than the limit, and as long as the limit allows from the offset |
| Repository.PageAppend | internal/repository/postgres/subscription_repo.go:147-183 | one more row extends the page exactly when it falls inside the window |
| Repository.PageOf | internal/repository/postgres/subscription_repo.go:147 | a page holds rows of what it pages, in their order |
| Repository.ListProperties | internal/repository/postgres/subscription_repo.go:141-187 | every listed row is a stored row that matches the filter; the list is newest first and at most the effective limit long |
| Repository.ListAll | internal/repository/postgres/subscription_repo.go:147-157 | with no offset and a limit that covers the matches, the list is every matching row |
| Repository.ActiveCountSpan | internal/repository/postgres/subscription_repo.go:193-199 | a row is active in as many months of the range as the overlap of its own span with the range |
| Repository.RowsTotalStep | internal/repository/postgres/subscription_repo.go:192-201 | the row-by-row total splits off its first month like the month-by-month total |
| Repository.SeriesTotalByRow | internal/repository/postgres/subscription_repo.go:191-202 | the month-series join sum equals the sum over matching rows of price times active months |
| Repository.NoMatchNoTotal | internal/repository/postgres/subscription_repo.go:195-201 | with no matching row, the total is 0 |
| Repository.SummaryExample | internal/repository/postgres/subscription_repo.go:191-202 | a price of 100 for Jan–Mar 2025 totals 300 over 01-2025..03-2025 and 0 over 04-2025..06-2025 |
| Repository.ConsistentCreate | internal/repository/postgres/subscription_repo.go:28-57 | inserting a fresh id stamped with the next clock reading keeps the store consistent |
| Repository.ConsistentUpdate | internal/repository/postgres/subscription_repo.go:89-127 | updating a row with its created_at kept and a fresh updated_at keeps the store consistent |
| Repository.OrderDistinct | internal/repository/postgres/subscription_repo.go:28-33 | in a consistent store an id sits at one position of the insertion order |
| Repository.Remove | internal/repository/postgres/subscription_repo.go:130 | removing a position shortens the order by one |
| Repository.RemovedAt | internal/repository/postgres/subscription_repo.go:130 | the positions before the removed one stay, and those after it move down by one |
| Repository.DeleteListed | internal/repository/postgres/subscription_repo.go:129-138 | after a delete, every id left in the order is still stored |
| Repository.DeleteCovered | internal/repository/postgres/subscription_repo.go:129-138 | after a delete, every stored id is still in the order |
| Repository.DeleteSorted | internal/repository/postgres/subscription_repo.go:129-138 | after a delete, created_at still increases along the order |
| Repository.ConsistentDelete | internal/repository/postgres/subscription_repo.go:129-138 | deleting a stored row keeps the store consistent |
| Repository.Store.constructor | internal/repository/postgres/subscription_repo.go:24-26 | a new store is empty and consistent |
| Repository.Store.Create | internal/repository/postgres/subscription_repo.go:28-57 | a stored id is Duplicate and nothing changes; otherwise exactly that row is added, stamped with the next clock reading as both timestamps, and returned |
| Repository.Store.Get | internal/repository/postgres/subscription_repo.go:59-87 | NotFound iff the id is absent; otherwise the stored row, end date included as stored |
| Repository.Store.Update | internal/repository/postgres/subscription_repo.go:89-127 | an absent id is NotFound and nothing changes; otherwise the row takes the new fields and keeps its id and created_at, gets a fresh updated_at, and no other row changes |
| Repository.Store.Delete | internal/repository/postgres/subscription_repo.go:129-138 | an absent id is NotFound and nothing changes; otherwise exactly that row and its id are gone |
| Repository.Store.List | internal/repository/postgres/subscription_repo.go:140-188 | after the limit and offset are clamped, the result is exactly the page of matching rows, newest first, at the effective offset and limit; the store is not changed |
| Repository.ListStep | internal/repository/postgres/subscription_repo.go:165-183 | one more row read grows the matches by it exactly when it matches, and the page by it exactly when it also falls inside the window |
| Repository.CollectPage | internal/repository/postgres/subscription_repo.go:165-187 | the collecting loop returns exactly the page at the offset and limit of the matching rows, in the order read |
| Repository.Store.Summary | internal/repository/postgres/subscription_repo.go:190-209 | the cursor loop computes the month-series join sum over the range; the store is not changed |
| Repository.DeleteTwice | internal/repository/postgres/subscription_repo.go:129-138 | deleting a stored id succeeds, and deleting it again is NotFound |
| Repository.CreateThenGet | internal/repository/postgres/subscription_repo.go:28-87 | after a fresh create, Get returns the created row, whose timestamps are equal |
| UseCase.RangeCheck | internal/usecase/subscription_service.go:88-93 | the summary guards pass iff both bounds are non-zero and the end does not precede the start; every failure is InvalidArgument |
| UseCase.RangeCheckOrder | internal/usecase/subscription_service.go:88-93 | a zero bound is reported as missing first, and an inverted range only after that |
| UseCase.SingleMonthForwarded | internal/usecase/subscription_service.go:91-95 | a range with End == Start goes to the store |
| UseCase.NewestWellFormed | internal/usecase/subscription_service.go:95 | every row the store reads is a validated one |
| UseCase.MonthTotalNonNegative | internal/repository/postgres/subscription_repo.go:195-199 | with positive prices, one month's total is never negative |
| UseCase.SeriesTotalNonNegative | internal/repository/postgres/subscription_repo.go:191-202 | with positive prices, the summary total is never negative |
| UseCase.Service.constructor | internal/usecase/subscription_service.go:27-29 | the service holds the store it is given; it requires that store to be consistent and to hold only validated rows, the assumption that every row was written through this service |
| UseCase.Service.Create | internal/usecase/subscription_service.go:31-44 | invalid input is the validator's error and the store is untouched; valid input goes to the store under the fresh id, and the store's reply is returned unchanged |
| UseCase.Service.Get | internal/usecase/subscription_service.go:46-53 | the store's answer, unchanged; a found row is a validated one under that id |
| UseCase.Service.Update | internal/usecase/subscription_service.go:55-68 | the input is re-validated; invalid input leaves the store untouched; the validated record with the path id goes to the store, and its reply is returned unchanged |
| UseCase.Service.Delete | internal/usecase/subscription_service.go:70-76 | the store's deletion, NotFound included |
| UseCase.Service.List | internal/usecase/subscription_service.go:78-85 | the store's page, unchanged, and every listed row is a validated one |
| UseCase.Service.Summary | internal/usecase/subscription_service.go:87-101 | a failing guard is its InvalidArgument and the store is not queried; otherwise the store's total, never negative |
| UseCase.CreateThenGet | internal/usecase/subscription_service.go:31-53 | a record created through the service reads back, under the new id, with the validated name |
| Transport.Wrapped | internal/transport/http/middleware.go:66-71 | an error wraps its own sentinel and nothing else, and an `Other` error wraps none |
| Transport.Classify | internal/transport/http/middleware.go:65-74 | the status is one of 400, 409, 404 and 500 |
| Transport.ClassifyFirstMatch | internal/transport/http/middleware.go:65-74 | the cases are tried as InvalidArgument, Duplicate, NotFound, then the default, and the first match wins |
| Transport.HandleError | internal/transport/http/middleware.go:64-75 | the message is one of the four fixed texts |
| Transport.HandleErrorByKind | internal/transport/http/middleware.go:64-75 | the status recovers the error's kind, and two errors get the same response iff they have the same kind, whatever their details |
| Transport.HandleErrorTable | internal/transport/http/middleware.go:66-73 | InvalidArgument → 400 "invalid argument", Duplicate → 409 "already exists", NotFound → 404 "not found", anything else → 500 "internal error" |
| Transport.DomainToResponse | internal/transport/http/middleware.go:77-94 | name and price are copied; the end is absent iff the record has none; both identifiers are 36-character texts |
| Transport.ResponseDecodes | internal/transport/http/middleware.go:78-90 | both identifiers parse back; the start is "" iff it is the zero instant, and otherwise parses back, and so does a non-zero end |
| Transport.ResponseRevalidates | internal/transport/http/middleware.go:77-90 | a validated record whose end is not the zero instant validates back to itself, but for id and timestamps, when its response fields are sent as input |
| Transport.ZeroEndShownBlank | internal/transport/http/middleware.go:78-82 | an end at the zero instant is shown as a present but empty text |

## Left out

- I/O and plumbing are not modelled: HTTP routing, JSON encoding and decoding, pgx connection handling, row scanning, `context` cancellation and the `slog` calls.
- Concurrency is not modelled: each operation is one atomic step on the store.
- Database failures are not modelled. The store never produces an `Other` error. `Transport.HandleError` still maps `Other` to 500.
- Uniqueness constraints other than the id are not modelled, because the schema is not part of this model. So `Duplicate` from an update cannot arise.
- `NOW()` is modelled as the store's clock, which ticks on every insert and update (a delete leaves it as it is). So `created_at` values never tie, and the newest-first order is the reverse of insertion order.
- `uuid.New()` is modelled as the `newId` parameter of `UseCase.Service.Create`.
- The repository interface is modelled as the concrete `Repository.Store`: the service holds that class, not an abstract interface.
- UseCase.Service.constructor: requires every stored row to be well-formed, while `NewService` accepts any repository. The model assumes the table is written only through this service, because no schema or constraint is in view that restricts it. The promises that a found or listed row is validated (`UseCase.Service.Get`, `UseCase.Service.List`) and that a summary is never negative (`UseCase.Service.Summary`) rest on that assumption.
- `Repository.Store.List` pages inside its own loop. The SQL's `LIMIT`/`OFFSET` and Go's collecting loop are one loop here, with the same result.
- `Repository.Store.Summary`: the total is an unbounded integer, so `int64` overflow is not modelled.
- Time values are not timestamps: `created_at` and `updated_at` are clock readings. Their RFC 3339 formatting in responses is left out, and so are the two timestamp fields of `Transport.SubscriptionResponse`.
- Error texts keep only the detail this code base writes. The text Go's time package appends after "invalid month format, expected MM-YYYY: " is not modelled.
- `Validation.Read` evaluates all three parses before the checks run. Go evaluates each one only after the checks ahead of it pass. The parses have no effects, so the outcome is the same.
- `Uuid.Parse` is written from the documented forms of the identifier library. That library's source is not part of this model.
- Strings are sequences of Unicode scalar values. Go strings that are not valid UTF-8 are not modelled.
- The handler's silent fallback of an unparseable `limit` or `offset` to 0 is not modelled. Its effect is covered by `Repository.EffectiveLimit` and `Repository.EffectiveOffset`, which treat 0 as the default.
- The request logger, the panic recoverer and `writeJSON`/`writeError` are not modelled.
