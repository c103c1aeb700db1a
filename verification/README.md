# InstaPoll poll core in Dafny

InstaPoll is a small poll service: clients create a poll (a title, an optional
description, 2 to 10 text options and an optional expiry), fetch one poll by
ID, or list all polls over an HTTP API backed by MongoDB. This project models
the two pieces of the Go backend that make decisions:

- `models.dfy`, module `Models` (from `backend/models/poll.go`): the `Poll` and
  `Option` records, the `ErrInvalidPoll` error, and `Poll.Validate`. Validate
  is a fixed-order, first-failure-wins chain of checks. It is modelled as the
  function `Validate` with the recursive helper `ValidateOptions` for the
  option loop. Beside it there is an independent reference definition:
  `Invariants` (the five invariants as one conjunction) and `Check` / `Fails` /
  `Rank` (each individual check, whether it fails, and its place in the check
  order). The lemmas prove that Validate passes exactly when the invariants
  hold. When it fails, it reports the message of the earliest failing check.
- `handlers.dfy`, module `Handlers` (from `backend/handlers/poll.go`): the class
  `PollHandler`, whose `collection` field is the store (a map from `_id` to
  `Poll`).
  - `CreatePoll` is a method. It decodes, prepares, validates and responds.
  - The preparation step is the method `PrepareForCreation`. Its loop
    overwrites each option's ID and vote count in place in an array.
  - `GetPoll` and `ListPolls` are functions.
  - Responses are `(status, body)` values.
  - JSON decoding is an input: `Decoded(poll)` or `Malformed(err)`.
  - The UUID generator is a sequence `ids` of the identifiers it hands out
    during one request, in call order.
  - Clock reads are parameters: `now` for the timestamps, and `checkedAt`
    for the separate `time.Now()` inside Validate.

Representation choices:

- Go strings that are length-checked (title, description, option text) are
  `seq<byte>`, because Go's `len` counts UTF-8 bytes. Identifiers and messages
  are Dafny strings.
- Instants are integers (Unix nanoseconds). An unset `ExpiresAt` is Go's zero
  time (year 1), the constant `ZeroTime`, and `IsZero` is equality with it.
  `Before` is strict `<`.

The live handlers never touch the collection: the insert and find calls in
`backend/handlers/poll.go` are commented out. The model follows the live code.
`CreatePoll` has no `modifies` clause, so the collection is unchanged on every
path, and `GetPoll` and `ListPolls` read nothing. Three separate members follow
the commented-out code instead, and each is labelled as doing so in its doc
comment: `CreatePollPersisting`, `GetPollFromCollection` and
`ListPollsFromCursor`. Two lemmas relate the live stubs to them.
`GetPollStubAgreesOnlyWhenAbsent` says the live 404 is right exactly when the
poll is absent. `ListPollsStubMatchesEmptyCollection` says the live `[]` is
right for an empty collection.

Two places where the source's own evidence points two ways:

- The commented-out `InsertOne` (`backend/handlers/poll.go:86-98`) and the
  test assertions at `backend/handlers/poll_test.go:156-168` expect a created
  poll to be stored, but the live code responds 201 without inserting. The
  model follows the live code, so `CreatePoll` leaves the store unchanged;
  only `CreatePollPersisting` stores the poll. The lookups asserted at
  `backend/handlers/poll_test.go:203` and `:261` likewise hold only for
  `GetPollFromCollection` and `ListPollsFromCursor`.
- The validator's messages speak of characters ("less than 200 characters",
  `backend/models/poll.go:32` and `:54`), while the checks use Go's `len`,
  which counts bytes (`backend/models/poll.go:31` and `:53`). The model counts
  bytes. The checks also accept a title or option text of exactly 200 bytes
  and a description of exactly 1000 bytes, although the messages say "less
  than"; `TitleLengthBoundary` states the title case.

## Model

| member | source | states |
|---|---|---|
| `Models.ErrInvalidPoll.Error` | backend/models/poll.go:66-71 | the error's text is the message it was built from |
| `Models.ValidateOptions` | backend/models/poll.go:48-56 | passes iff every option text is 1..200 bytes; on failure, the error is the one for the first offending option in sequence order, with all earlier options fine |
| `Models.Validate` | backend/models/poll.go:26-64 | passes iff all five invariants hold (title 1..200 bytes, description at most 1000, 2..10 options, every option text 1..200, expiry unset or not before now) |
| `Models.FailingCheck` | backend/models/poll.go:26-63 | a failing Validate reports the message of a failing check whose rank is no greater than that of any other failing check |
| `Models.ValidateReportsFirstFailingCheck` | backend/models/poll.go:26-63 | Validate passes iff no check fails; on failure, the error is the message of the earliest failing check in the fixed order (title, description, count, options in order, expiry) |
| `Models.ValidateReadsOnlyValidatedFields` | backend/models/poll.go:26-64 | the verdict does not depend on ID, option IDs, vote counts, CreatedAt or UpdatedAt |
| `Models.ValidateOptionsReadsOnlyTexts` | backend/models/poll.go:48-56 | the option loop's outcome is the same for any two option lists with the same texts in the same order |
| `Models.TitleLengthBoundary` | backend/models/poll.go:31-33 | a 200-byte title is accepted, a 201-byte title is rejected with the title-length message |
| `Models.EmptyTitleReportedFirst` | backend/models/poll.go:28-30 | an empty title is reported as "title is required" whatever else is wrong |
| `Models.OptionCountBounds` | backend/models/poll.go:41-46 | success implies 2..10 options; below 2 and above 10 report their own messages |
| `Models.ExpiryCheck` | backend/models/poll.go:59-61 | an unset expiry never rejects; an expiry equal to now passes; a set expiry strictly before now is rejected |
| `Models.MessagesIdentifyRule` | backend/models/poll.go:28-61 | different rules report different messages, so the message identifies the rule |
| `Models.ValidTestPollPasses` | backend/models/poll_test.go:14-24 | the valid case of the validator's test table passes |
| `Models.InvalidTestPollsFail` | backend/models/poll_test.go:25-92 | each invalid case of the test table fails, with the message of the rule it targets |
| `Handlers.PrepareForCreation` | backend/handlers/poll.go:59-72 | the result is the input with a new poll ID, each option's ID replaced in order and its vote count zeroed, both timestamps set to now, and title, description, expiry and the options' order and texts kept |
| `Handlers.PreparedPollHasFreshIdentity` | backend/handlers/poll.go:64-72 | with distinct non-empty generated IDs, the prepared poll and all its options have non-empty, pairwise distinct IDs, zero votes, and CreatedAt == UpdatedAt == now |
| `Handlers.PreparationPreservesValidation` | backend/handlers/poll.go:64-81 | validating the prepared poll gives the same verdict and message as validating the decoded poll |
| `Handlers.PollHandler.CreatePoll` | backend/handlers/poll.go:48-107 | decode failure gives 400 "Invalid request body: " + error; validation failure gives 400 "Validation failed: " + the validator's message; 201 iff decoded and valid, with the fully prepared poll as body; the collection is never modified |
| `Handlers.PollHandler.GetPoll` | backend/handlers/poll.go:111-163 | an empty id gives 400, any other id gives 404, always with an error body |
| `Handlers.PollHandler.ListPolls` | backend/handlers/poll.go:214-220 | always 200 with an array body, the empty array |
| `Handlers.PollHandler.CreatePollPersisting` | backend/handlers/poll.go:83-98 | (commented-out intent) decode and validation failures answer as `CreatePoll` and leave the collection unchanged; a failed or duplicate insert gives 500 and leaves it unchanged; otherwise 201 and the prepared poll is stored under its new ID; every path keeps each stored poll under its own ID (`Keyed`) |
| `Handlers.PollHandler.GetPollFromCollection` | backend/handlers/poll.go:117-155 | (commented-out intent) empty id gives 400 "Poll ID parameter is required"; a failed find gives 500 "Failed to retrieve poll"; 200 with the stored poll iff the id is present and the find succeeds; 404 "Poll not found" iff it is absent; when every poll is stored under its own ID (`Keyed`), a 200 returns the poll whose ID was asked for |
| `Handlers.PollHandler.GetPollStubAgreesOnlyWhenAbsent` | backend/handlers/poll.go:157-162 | the live GetPoll's status equals the lookup's exactly when the id is empty or absent from the collection |
| `Handlers.PollHandler.ListPollsFromCursor` | backend/handlers/poll.go:171-212 | (commented-out intent) 200 iff the find and decode succeed, and then the body is an array (never null) of the found polls, empty for a nil result; a failed find gives 500 "Failed to retrieve polls" and a failed decode 500 "Failed to decode polls" |
| `Handlers.PollHandler.ListPollsStubMatchesEmptyCollection` | backend/handlers/poll.go:214-219 | the live ListPolls answers exactly as the find-many does on an empty collection |

## Left out

- `backend/main.go` is not part of this model: process startup, environment lookup, MongoDB connect, ping and disconnect, and server start are I/O.
- `NewPollHandler` and `RegisterRoutes` (`backend/handlers/poll.go:21-44`) only wire routes to the framework. They carry no logic.
- Gin's JSON binding, `c.Param` and `c.JSON` are library calls. Decoding is an input, and a response is a value. JSON field names and `omitempty` are not modelled.
- `uuid.New()`: its output is the `ids` parameter. `FreshIds` assumes those IDs are distinct and non-empty, which UUIDs are with overwhelming probability.
- `time.Now()`: its results are the parameters `now` and `checkedAt`. Go's monotonic clock reading and time zones are not modelled.
- The MongoDB driver, contexts, timeouts and cancellation: insert and find outcomes are inputs of the persisting variants (`insertFails`, `findFails`, `FindMany`).
- `log.Printf` calls are logging only.
- `Handlers.PollHandler.ListPollsFromCursor` takes the cursor's result as given. It does not relate the found documents to the contents of `collection`, because find-many order is up to the store.
- `Handlers.PrepareForCreation` copies the decoded options into an array, updates that array in place, and returns a new `Poll` value. The aliasing of the Go slice shared with the decoded request is not modelled.
- `Option.VoteCount` is Go's 64-bit `int`. The model uses an unbounded integer, because the core only ever sets it to 0.
- The handler tests' database scaffolding (`setupTestDB`, `teardownTestDB`, `TestMain`, `clearTestCollection`) and `frontend/test.js` only set up or check files, so they are not modelled.
- Concurrency between requests is not modelled. The handlers hold no shared mutable state besides the store.
