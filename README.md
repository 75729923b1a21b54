# Receipt service: application layer and persistence adapter

This project models the core of the receipt CRUD service. A receipt has an
integer id, a title, an author, a description and two timestamps. Clients
create, read, list, partially update and delete receipts. The model has two
layers:

- **Use case** (`usecase.dfy`, module `UseCase`). Field validation through an
  accumulating validator. A guard that rejects any id below 1 before storage
  is queried. Translation of the driver's "no rows" into "Record not found".
  The partial-update merge, where a non-empty patch field overwrites the
  stored value and an empty one keeps it. Delegation to the repository.
- **Repository** (`repository.dfy`, module `Repository`). One SQL statement
  per method, modelled as a class over a table `rows: map<int, Receipt>` and
  the serial id sequence `nextId`. Its invariant `Valid()` says that every
  stored row has a positive id below the sequence and is stored under its
  own id.

The entity and the error kinds are in `domain.dfy`. Text is a sequence of
Unicode code points, so a rune count is a length. The validator is in
`validation.dfy`. Its source package is not part of this model. It is
modelled as a set of failed field keys that only grows, and `Valid()` holds
exactly when that set is empty.

Three inputs become parameters:

- `outage: Option<nat>` is a database failure, such as a lost connection or a
  cancelled context. A statement reports it instead of running.
- `now` is the database clock.
- The use-case `Update` makes two round trips, a read and then a write, so
  it takes one outage parameter for each.

A Go `*Domain.Receipt` that a call writes into is returned as its value after
the call. The repository's `Create` writes the new id and creation time back
(`written`). The use-case `Update` merges into the fetched copy and never
writes to the caller's patch, so it returns only the error. As a result, the
HTTP handler answers an update with the unmodified patch, not with the
merged record.

Two behaviours of the code are worth stating outright:

- `Create` rejects an invalid receipt with one generic error
  (`ValidationFailed`). It does not report which fields were violated, even
  though the validator collects all of them.
- The repository's `Update` on a missing row fails with the driver's
  "no rows" error (`NoRows`). The use-case `Update` never reaches that path,
  because its own read fails first with "Record not found".

The use case never contacts storage for an id below 1. The contracts show
this: for such an id the result is "Record not found" even when an outage is
supplied.

## Model

| member | source | states |
|---|---|---|
| `Validation.Validator.constructor` | services/receiptManage/internal/Use_Case/receipt.go:34 | a new validator has no failed keys |
| `Validation.Validator.Check` | services/receiptManage/internal/Use_Case/receipt.go:22-26 | a failing check adds its key, a passing one changes nothing; keys are never removed |
| `UseCase.FailedKeys` | services/receiptManage/internal/Use_Case/receipt.go:21-27 | a key is reported iff some check with that key fails; no check is skipped after an earlier failure |
| `UseCase.Violations` | services/receiptManage/internal/Use_Case/receipt.go:21-27 | title (and author) is flagged iff empty or longer than 500 code points; description iff empty, with no length bound |
| `UseCase.ValidateReceipt` | services/receiptManage/internal/Use_Case/receipt.go:21-27 | running the five checks adds exactly the violated fields to the validator |
| `UseCase.ValidIff` | services/receiptManage/internal/Use_Case/receipt.go:21-27 | a receipt has no violation iff title and author have 1..500 code points and the description is non-empty |
| `UseCase.EmptyReceiptFailsEveryField` | services/receiptManage/internal/Delivery/http/handlers_test.go:43-46 | an empty receipt is flagged on all three fields |
| `UseCase.DescriptionOnlyFails` | services/receiptManage/internal/Delivery/http/handlers_test.go:47-50 | a receipt with only a description is flagged on title and author |
| `UseCase.Merge` | services/receiptManage/internal/Use_Case/receipt.go:64-73 | each text field is the patch's when non-empty, else the stored one; id and both timestamps are the stored record's |
| `UseCase.MergeIdempotent` | services/receiptManage/internal/Use_Case/receipt.go:64-73 | applying a patch twice gives the same record as applying it once |
| `UseCase.TitleOnlyPatch` | services/receiptManage/internal/Delivery/http/handlers_test.go:216-222 | a patch with only a title changes the title and nothing else |
| `UseCase.MergeSkipsValidation` | services/receiptManage/internal/Use_Case/receipt.go:64-75 | a valid record patched with an over-long title yields a record that fails validation on title |
| `UseCase.UpdateStoresInvalidMerge` | services/receiptManage/internal/Use_Case/receipt.go:64-75 | Update stores that merge without validating it: the row keeps the over-long title and fails validation on title |
| `UseCase.ReceiptUseCase.constructor` | services/receiptManage/internal/Use_Case/receipt.go:99-103 | the use case delegates to the given repository |
| `UseCase.ReceiptUseCase.Create` | services/receiptManage/internal/Use_Case/receipt.go:33-41 | an invalid receipt gets the generic validation error and the table is untouched; a valid one is inserted exactly as the repository's Create does: the new id is the old sequence value, the sequence advances by one, and the written-back receipt is returned |
| `UseCase.ReceiptUseCase.Delete` | services/receiptManage/internal/Use_Case/receipt.go:43-50 | id < 1 is "Record not found" without touching storage; otherwise the repository's delete outcome |
| `UseCase.ReceiptUseCase.Get` | services/receiptManage/internal/Use_Case/receipt.go:78-90 | id < 1 is "Record not found" even during an outage; a missing row is "Record not found"; other storage errors pass through; otherwise the stored row |
| `UseCase.ReceiptUseCase.Update` | services/receiptManage/internal/Use_Case/receipt.go:52-77 | id < 1, a failed read and an absent id fail with the table unchanged (an absent id reports "Record not found", never the write's error); otherwise the row becomes the merge of the stored row and the patch, with the update time refreshed |
| `UseCase.ReceiptUseCase.GetAll` | services/receiptManage/internal/Use_Case/receipt.go:91-97 | storage errors pass through; otherwise every stored row once, in ascending id order; empty table gives an empty list |
| `UseCase.CreateThenGet` | services/receiptManage/internal/Use_Case/receipt.go:33-90 | reading back a created receipt by its returned id gives the client's text, a positive id and the insertion time in both timestamps |
| `UseCase.DeleteTwice` | services/receiptManage/internal/Repository/receiptRep.go:31-47 | a second delete of the same id reports "Record not found"; the table loses exactly that id |
| `Repository.Inserted` | services/receiptManage/internal/Repository/receiptRep.go:22-29 | an inserted row has the new id, the client's three text fields and the insertion time in both timestamps |
| `Repository.Overwritten` | services/receiptManage/internal/Repository/receiptRep.go:72-76 | an updated row takes the three text fields, its update time is refreshed, its id and creation time are kept |
| `Repository.ReceiptRepository.constructor` | services/receiptManage/internal/Repository/receiptRep.go:121-123 | a repository over an existing database holds exactly the rows and sequence value it is given |
| `Repository.ReceiptRepository.Create` | services/receiptManage/internal/Repository/receiptRep.go:22-29 | the new id is positive and not in the table; exactly that row is added; the id and creation time are written back into the receipt; on an outage nothing changes |
| `Repository.ReceiptRepository.Delete` | services/receiptManage/internal/Repository/receiptRep.go:31-47 | an absent id is "Record not found" with the table unchanged; a present id removes exactly that entry |
| `Repository.ReceiptRepository.Get` | services/receiptManage/internal/Repository/receiptRep.go:49-68 | a present id gives that row, which carries the id; an absent id gives "no rows"; an outage gives the storage error |
| `Repository.ReceiptRepository.Update` | services/receiptManage/internal/Repository/receiptRep.go:70-85 | the row with the receipt's id gets the new text fields and update time; no match is "no rows" with the table unchanged |
| `Repository.ReceiptRepository.GetAll` | services/receiptManage/internal/Repository/receiptRep.go:87-119 | the result lists every stored row exactly once in strictly ascending id order; an empty table gives an empty list, not an error |
| `Repository.ListingIsUnique` | services/receiptManage/internal/Repository/receiptRep.go:88-91 | a table has exactly one ascending listing, so GetAll's answer is determined by the table |
| `Repository.ListingCount` | services/receiptManage/internal/Repository/receiptRep.go:99-118 | a listing has exactly as many entries as the table has rows |

## Left out

- HTTP delivery (`Delivery/http/handlers.go`, `router.go`): request binding, JSON encoding, id parsing, and the mapping of every error to status 400.
- Process startup and the connection pool (`cmd/web/main.go`, `pkg/postgres/postgres.go`).
- SQL execution, driver error types and `context.Context` cancellation. They are reduced to the `outage` parameters and the `Error` kinds.
- Error message strings. The validator package is not part of this model, and only the failed keys are modelled.
- The Go interfaces `ReceiptRepository` and `ReceiptUseCase`. Each has one implementation, and each is modelled as that concrete class.
- Timestamps are natural numbers and `now()` is a parameter. There is no clock arithmetic.
- UTF-8 decoding. Text is a sequence of code points.
- Integer width. Ids are unbounded integers, so the 64-bit limit of the id column and of the sequence is not modelled.
- Whether a failed insert consumes a sequence value. In the model, a failed insert leaves `nextId` unchanged.
- The stored `upload_at` of a new row. The table schema is not part of this model, so the row takes the insertion time.
- Concurrency. The model is sequential, so the race between the read and the write of `Update` is not represented.
- `Repository.ReceiptRepository.GetAll`: failures after the query has started are not modelled; only a failure of the query itself (the `outage` parameter) is. A row scan that fails (receiptRep.go:104-106) returns an error. The loop (receiptRep.go:101-118) never checks `rows.Err()`, so a driver failure during `rows.Next()` ends the loop, and GetAll returns the rows read so far with no error: a truncated success. The model always returns the full listing.
