# VietinBank history → Actual Budget importer, modelled in Dafny

The importer reads a VietinBank transaction-history export and converts each
record into an Actual Budget transaction. It skips records that look like
transactions already in the ledger, unless the user agrees to overwrite them.
It then imports the accepted batch into the configured account in one call.
This project models that pipeline as pure functions over sequences and proves
what each step promises:

- `Text` — JavaScript's `split` on a one-character separator, with `Join` as its inverse.
- `FieldParsers` — `parseDate` (`DD-MM-YYYY <time>` to `YYYY-MM-DD`) and
  `parseAmount` (keep digits and minus signs, `parseInt`, times 100), including
  what `parseInt` really does: it stops at an interior minus and yields NaN
  when no digit follows the optional leading minus.
- `Records` — the data model: the bank's `SourceRecord`, the
  `CanonicalTransaction` built from it, the ledger's `ExistingTransaction`.
  A money value is an `Amount`: an integer count of minor units, or NaN.
- `Overlap` — `isTransactionOverlap`: same date and amounts less than 1 apart.
- `Reconciliation` — the per-record loop of `main`: build the candidate, check
  it for overlap, ask about overlapping ones, keep the approved ones.
- `Commit` — `addTransactions`: choose the first account with the configured
  name and shape each transaction as an import row.
- `Pipeline` — one run of `main` after JSON decoding. It resolves the date
  range, looks up existing transactions (a failed lookup counts as none),
  runs the loop, and imports only a non-empty batch.

The user's answer to the overwrite prompt is a parameter `decide` of type
`(position, candidate) -> bool`. The ledger's answers are parameters too:
the existing-transaction lookup as a function of the date range, and the
account list as a `Result`. The model's outcome `Imported(accountId, rows)`
stands for the single import call the run makes.

Some inputs one might expect to be rejected are accepted by the code:

- An amount whose cleaned string has no digit immediately after its optional leading minus does not fail. `parseInt` gives NaN.
  The NaN candidate never overlaps anything, so it is always in the accepted
  batch, and every run that imports anything imports it again
  (`Reconciliation.NotANumberAlwaysAccepted`).
- A malformed date does not fail either. A missing month or year renders as
  the text `undefined` (`FieldParsers.ParseDateMissingYear`).
- An empty `transactions` array passes the shape check. The run then fails at
  `transactions[0].processDate` (index.js:173), before any ledger lookup. The
  model reports this as `Aborted(NoRecords)`.

## Model

| member | source | states |
|---|---|---|
| Text.Split | index.js:27-28 | `split` always returns at least one piece; no piece contains the separator; joining the pieces with the separator gives back the input |
| Text.SplitAtFirst | index.js:27 | the first piece ends at the first separator, and the remainder is split on its own |
| Text.SplitNoSeparator | index.js:27 | a string without the separator is split into just itself |
| Text.SplitJoin | index.js:28 | splitting undoes joining when no piece contains the separator |
| FieldParsers.Render | index.js:29 | no contract of its own: an element past the end of the split renders as the text `undefined`; `FieldParsers.ParseDateMissingYear` carries this |
| FieldParsers.ParseDate | index.js:25-32 | no contract of its own: its behaviour is stated by `FieldParsers.ParseDateReorders`, `FieldParsers.ParseDateWithoutTime` and `FieldParsers.ParseDateMissingYear` |
| FieldParsers.ParseDateReorders | index.js:25-32 | `DD-MM-YYYY` followed by a space and any time part becomes `YYYY-MM-DD`, whatever the time part is |
| FieldParsers.ParseDateWithoutTime | index.js:27-29 | the same conversion when there is no space at all |
| FieldParsers.ParseDateMissingYear | index.js:28-29 | a date part with only day and month converts to `undefined-MM-DD` |
| FieldParsers.ParseDateExample | index.js:25-32 | `15-03-2024 10:00:00` becomes `2024-03-15` |
| FieldParsers.Clean | index.js:36 | the cleaned string holds only digits and minus signs and is no longer than the input |
| FieldParsers.CleanAppend | index.js:36 | cleaning a concatenation is the concatenation of the cleaned parts |
| FieldParsers.CleanKeepsClean | index.js:36 | a string of digits and minus signs comes through cleaning unchanged |
| FieldParsers.LeadingDigits | index.js:37 | `parseInt` reads the longest run of digits at the start: a prefix, all digits, and followed by a non-digit or nothing |
| FieldParsers.ParseInt | index.js:37 | no contract of its own: `parseInt(cleaned, 10)` reads an optional minus and the longest digit run after it, or gives NaN; stated through `FieldParsers.LeadingDigits`, `FieldParsers.ParseAmountOfNumeral` and `FieldParsers.ParseAmountWithoutDigits` |
| FieldParsers.ParseAmount | index.js:34-41 | a numeric result is always a multiple of 100 |
| FieldParsers.ParseAmountOfNumeral | index.js:34-41 | when the cleaned string is an optional minus followed by digits only, the result is exactly 100 times the integer they denote |
| FieldParsers.ParseAmountOfDecimal | index.js:34-41 | parsing the decimal spelling of any integer n gives 100 × n |
| FieldParsers.ParseAmountIgnoresDecoration | index.js:36 | inserting any character other than a digit or minus, such as a thousands separator, does not change the amount |
| FieldParsers.ParseAmountWithoutDigits | index.js:36-38 | a string with no digit at all yields NaN |
| FieldParsers.ParseAmountPlainExample | index.js:34-41 | `1234` becomes 123400 |
| FieldParsers.ParseAmountGroupedExample | index.js:34-41 | `1,234` becomes 123400 |
| FieldParsers.ParseAmountNegativeExample | index.js:34-41 | `-50` becomes -5000 |
| FieldParsers.ParseAmountHundredExample | index.js:34-41 | `100` becomes 10000 |
| FieldParsers.ParseAmountTruncationExample | index.js:37 | `12-34` becomes 1200: `parseInt` stops at the interior minus |
| FieldParsers.ParseAmountDoubleMinusExample | index.js:37 | `--5` yields NaN |
| Overlap.Near | index.js:68 | no contract of its own: `Math.abs(existing - candidate) < 1`; `Overlap.NearIsEquality` states it is equality for numbers and false for NaN |
| Overlap.Matches | index.js:67-68 | no contract of its own: same date and a near amount; `Overlap.OverlapIsExactMatch` states what a match is |
| Overlap.IsOverlap | index.js:64-70 | the scan reports an overlap exactly when some existing transaction has the candidate's date and an amount less than 1 away from the candidate's |
| Overlap.NearIsEquality | index.js:68 | for whole-number amounts, "less than 1 apart" means equal, and NaN is near nothing |
| Overlap.OverlapIsExactMatch | index.js:64-70 | an overlap is exactly an existing transaction with the same date and the same amount |
| Overlap.NotANumberNeverOverlaps | index.js:68 | a NaN candidate never overlaps |
| Overlap.EmptyLedgerNeverOverlaps | index.js:65 | nothing overlaps an empty existing set |
| Overlap.OverlapGrows | index.js:65-69 | adding existing transactions on either side keeps every overlap |
| Reconciliation.PayeeName | index.js:198 | the payee is the counterparty name when it is present and non-empty, otherwise the remark |
| Reconciliation.BuildCandidate | index.js:195-201 | the candidate's date is the converted process date; its notes are the remark; it is cleared; its payee follows the rule above |
| Reconciliation.Sign | index.js:193 | no contract of its own: -1 for the marker `D`, 1 for any other; `Reconciliation.SignedAmount` and `Reconciliation.SignExamples` carry it |
| Reconciliation.SignedAmount | index.js:191-193 | the candidate's amount is the parsed amount negated when the marker is `D`, unchanged for any other marker, and NaN when the parse gave NaN |
| Reconciliation.DebitMirrorsCredit | index.js:191-201 | turning a `C` record into a `D` record negates the amount and changes no other field |
| Reconciliation.SignExamples | index.js:191-193 | `100` marked `D` gives -10000, and marked `C` gives 10000 |
| Reconciliation.Candidates | index.js:189-201 | one candidate per record, in input order |
| Reconciliation.Keeps | index.js:209-219 | no contract of its own: a candidate is kept when it overlaps nothing or the user answers yes; `Reconciliation.AcceptSelectsKept` uses it |
| Reconciliation.Accept | index.js:187-220 | no contract of its own: the batch after the first n candidates; `Reconciliation.AcceptSelectsKept` characterizes it as exactly the kept candidates in order |
| Reconciliation.ReconcileCandidates | index.js:187-220 | the loop over the candidates produces exactly the batch defined by `Accept` |
| Reconciliation.Reconcile | index.js:187-220 | the loop over the records produces that batch for the records' candidates, and never more entries than there are records |
| Reconciliation.AcceptLength | index.js:187-220 | after n records the batch holds at most n transactions |
| Reconciliation.KeptPositions | index.js:209-219 | every kept position lies among the records seen so far |
| Reconciliation.AcceptSelectsKept | index.js:209-219 | the batch is the candidates at the kept positions, in increasing order. A position is kept exactly when its candidate does not overlap, or the user answered yes for it |
| Reconciliation.AcceptIsSubsequence | index.js:187-220 | the batch is an order-preserving subsequence of the candidates |
| Reconciliation.AcceptedAreCleanOrApproved | index.js:209-219 | every transaction in the batch either overlaps nothing or was approved by the user at a position holding it |
| Reconciliation.NonOverlappingAreAccepted | index.js:209-219 | every candidate that overlaps nothing is in the batch |
| Reconciliation.NoOverlapAcceptsAll | index.js:187-220 | when no candidate overlaps, the batch is all candidates in order |
| Reconciliation.EmptyLedgerAcceptsAll | index.js:187-220 | against an empty existing set, the batch is all candidates in order |
| Reconciliation.AllDeclinedAcceptsNothing | index.js:209-215 | when every candidate overlaps and every prompt is declined, the batch is empty |
| Reconciliation.SecondRunImportsNothing | index.js:187-220 | a second pass of the loop over the same candidates, whose existing set holds the first pass's batch, accepts nothing when every prompt is declined, provided every amount is a number |
| Reconciliation.NotANumberAlwaysAccepted | index.js:191-219 | a candidate with a NaN amount is in every run's batch, whatever the ledger holds |
| Commit.FirstNamed | index.js:92 | `find` returns the first account with the name, or none when no account has it |
| Commit.SelectAccount | index.js:86-96 | selection fails with NoAccounts exactly when the list is empty. It fails with AccountNotFound exactly when the list is non-empty and no account has the name. Otherwise it returns the first account with that name |
| Commit.Format | index.js:98-104 | one import row per transaction, in order, carrying its date, amount, payee, notes and cleared flag |
| Commit.FormatRoundTrip | index.js:98-104 | the batch can be read back from the import rows |
| Commit.FormatInjective | index.js:98-104 | different batches give different import rows |
| Pipeline.Flatten | index.js:48-55 | the combined list holds exactly the transactions of the listed accounts |
| Pipeline.FetchExisting | index.js:43-62 | any failed request yields no existing transactions. Otherwise the result holds exactly the transactions of all accounts |
| Pipeline.ResolveRange | index.js:172-177 | the range fails exactly for an empty record list |
| Pipeline.RangeFollowsInputOrder | index.js:172-177 | the range is the converted dates of the first and last record in input order, with no sorting: swapping the ends swaps the range |
| Pipeline.Run | index.js:172-231 | an empty record list aborts. An import is never empty, and it goes to an account that has the configured name |
| Pipeline.RunImportsAcceptedBatch | index.js:223-231 | an import carries exactly the formatted accepted batch, into the account that selection picks |
| Pipeline.RunSkipsEmptyBatch | index.js:223-231 | no import call is made exactly when the accepted batch is empty |
| Pipeline.RunRequiresNamedAccount | index.js:86-96 | with a non-empty batch, a ledger with no accounts, or with no account of the configured name, aborts the run without importing |
| Pipeline.RunAfterFailedLookup | index.js:58-61 | when the lookup fails, the run imports every record's candidate, in order, or aborts at account selection |
| Pipeline.RunSingleRecord | index.js:172-231 | a single record, against a ledger whose one account has nothing in the record's date range, is imported alone into that account |

## Left out

- The backup confirmation, the editor prompt for the JSON payload, and the prompt's rendering. The overwrite prompt is the `decide` parameter (index.js:72-82, 115-128, 148-154).
- `JSON.parse` and the check that a `transactions` array exists. The model starts from decoded records whose fields are strings (index.js:156-170). A required field (`processDate`, `amount`, `dorC`, `remark`) that is absent or not a string is not modelled.
- The ledger API: `init`, `downloadBudget`, `getAccounts`, `getTransactions`, `importTransactions` and `shutdown` are foreign I/O. Their results are inputs, and a failure of the import call itself is not modelled.
- The `Date` objects built from the range strings for the lookup (index.js:51). The lookup is an arbitrary function of the two strings.
- Reconciliation.SecondRunImportsNothing: assumes the second run's existing set contains the first batch. In the code that set comes from the lookup over the first and last record dates (index.js:173-183). With records out of date order, or a malformed first or last date, entries of the first batch can fall outside that range and would be imported again.
- Pipeline.FetchExisting: states which transactions the result holds, but not their order. Overlap detection does not depend on the order.
- Configuration, `dotenv`, the data directory, logging and `process.exit`. The account name is a parameter. An unset name behaves like a name no account has.
- JavaScript number precision: amounts are unbounded integers. Values beyond 2^53 lose precision in the code but not in the model.
- The async sequencing: the run is strictly sequential, so it is a plain function.
