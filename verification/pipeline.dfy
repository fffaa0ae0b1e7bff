/** One run of the importer (`main` in index.js) with its input/output made
    explicit: the decoded records, the ledger's answers, the user's answers
    and the configured account name go in; what the run imports comes out. */
module Pipeline {
  import opened Basics
  import opened Records
  import opened FieldParsers
  import opened Reconciliation
  import opened Commit

  /** The ledger's answers to the existing-transaction lookup: the account
      listing, then the transactions of each account in listing order. */
  type LedgerLookup = Result<seq<Result<seq<ExistingTransaction>, string>>, string>

  /** How a run ends: one import call for one account, no call because the
      batch is empty, or an abort before any import. */
  datatype RunOutcome =
    | Imported(accountId: string, rows: seq<ImportRow>)
    | NothingImported
    | Aborted(error: RunError)

  /** The transactions of all accounts, one account after the other. */
  function Flatten(lists: seq<Result<seq<ExistingTransaction>, string>>): (es: seq<ExistingTransaction>)
    requires forall i :: 0 <= i < |lists| ==> lists[i].Success?
    ensures forall i, e :: 0 <= i < |lists| && e in lists[i].value ==> e in es
    ensures forall e :: e in es ==> exists i :: 0 <= i < |lists| && e in lists[i].value
    decreases |lists|
  {
    if |lists| == 0 then []
    else
      var rest := Flatten(lists[1..]);
      assert forall i :: 1 <= i < |lists| ==> lists[i] == lists[1..][i - 1];
      lists[0].value + rest
  }

  /** Whether the lookup failed anywhere: the account listing or any account's transactions. */
  predicate LookupFailed(answer: LedgerLookup)
  {
    answer.Failure? || exists i :: 0 <= i < |answer.value| && answer.value[i].Failure?
  }

  /** `getExistingTransactions`: every account's transactions, or nothing at all
      when any request fails, so that a failed lookup never blocks the import. */
  function FetchExisting(answer: LedgerLookup): (es: seq<ExistingTransaction>)
    ensures LookupFailed(answer) ==> es == []
    ensures !LookupFailed(answer) ==>
      forall i, e :: 0 <= i < |answer.value| && e in answer.value[i].value ==> e in es
    ensures !LookupFailed(answer) ==>
      forall e :: e in es ==> exists i :: 0 <= i < |answer.value| && e in answer.value[i].value
  {
    if LookupFailed(answer) then [] else Flatten(answer.value)
  }

  /** The date range of the lookup: the dates of the first and of the last
      record, in input order; an empty array has no first record. */
  function ResolveRange(records: seq<SourceRecord>): (r: Result<(string, string), RunError>)
    ensures r.Failure? <==> |records| == 0
    ensures r.Failure? ==> r.error == NoRecords
  {
    if |records| == 0 then Failure(NoRecords)
    else Success((ParseDate(records[0].processDate), ParseDate(records[|records| - 1].processDate)))
  }

  /** The range comes from the two end records as they stand, without sorting:
      the records in between do not matter, and swapping the ends swaps the range. */
  lemma RangeFollowsInputOrder(first: SourceRecord, middle: seq<SourceRecord>, last: SourceRecord)
    ensures ResolveRange([first] + middle + [last]) ==
      Success((ParseDate(first.processDate), ParseDate(last.processDate)))
    ensures ResolveRange([last] + middle + [first]) ==
      Success((ParseDate(last.processDate), ParseDate(first.processDate)))
  {
  }

  /** The accepted batch of a run over non-empty records. */
  function RunBatch(records: seq<SourceRecord>, lookup: (string, string) -> LedgerLookup, decide: Decision): seq<CanonicalTransaction>
    requires |records| > 0
  {
    var range := ResolveRange(records).value;
    AcceptAll(Candidates(records), FetchExisting(lookup(range.0, range.1)), decide)
  }

  /** `main` after the JSON has been decoded: resolve the range, look up the
      existing transactions, run the per-record loop, and import the batch
      into the configured account when it is non-empty. */
  function Run(records: seq<SourceRecord>, lookup: (string, string) -> LedgerLookup, decide: Decision,
               accounts: Result<seq<Account>, string>, accountName: string): (r: RunOutcome)
    ensures |records| == 0 <==> r == Aborted(NoRecords)
    ensures r.Imported? ==> |r.rows| > 0
    ensures r.Imported? ==> accounts.Success?
    ensures r.Imported? ==>
      exists i :: 0 <= i < |accounts.value| && accounts.value[i].id == r.accountId && accounts.value[i].name == accountName
  {
    match ResolveRange(records)
    case Failure(f) => Aborted(f)
    case Success(_) =>
      var batch := RunBatch(records, lookup, decide);
      if |batch| == 0 then NothingImported
      else match accounts
        case Failure(message) => Aborted(LedgerFailure(message))
        case Success(list) =>
          match SelectAccount(list, accountName)
          case Failure(f) => Aborted(f)
          case Success(account) => Imported(account.id, Format(batch))
  }

  /** An import carries exactly the accepted batch, formatted, and goes to the
      first account with the configured name. */
  lemma RunImportsAcceptedBatch(records: seq<SourceRecord>, lookup: (string, string) -> LedgerLookup, decide: Decision,
                                accounts: Result<seq<Account>, string>, accountName: string)
    requires Run(records, lookup, decide, accounts, accountName).Imported?
    ensures |records| > 0 && accounts.Success?
    ensures var r := Run(records, lookup, decide, accounts, accountName);
      && r.rows == Format(RunBatch(records, lookup, decide))
      && SelectAccount(accounts.value, accountName) == Success(Account(r.accountId, accountName))
  {
  }

  /** No import call is made exactly when the batch is empty. */
  lemma RunSkipsEmptyBatch(records: seq<SourceRecord>, lookup: (string, string) -> LedgerLookup, decide: Decision,
                           accounts: Result<seq<Account>, string>, accountName: string)
    requires |records| > 0
    ensures Run(records, lookup, decide, accounts, accountName) == NothingImported <==>
      RunBatch(records, lookup, decide) == []
  {
  }

  /** With a non-empty batch, a ledger without accounts, or without an account
      of the configured name, aborts the run and nothing is imported. */
  lemma RunRequiresNamedAccount(records: seq<SourceRecord>, lookup: (string, string) -> LedgerLookup, decide: Decision,
                                list: seq<Account>, accountName: string)
    requires |records| > 0 && RunBatch(records, lookup, decide) != []
    ensures |list| == 0 ==> Run(records, lookup, decide, Success(list), accountName) == Aborted(NoAccounts)
    ensures |list| > 0 && (forall j :: 0 <= j < |list| ==> list[j].name != accountName) ==>
      Run(records, lookup, decide, Success(list), accountName) == Aborted(AccountNotFound(accountName))
  {
  }

  /** A failed lookup degrades to an empty ledger: the run then imports every
      record's candidate, in input order, or aborts at account selection. */
  lemma RunAfterFailedLookup(records: seq<SourceRecord>, lookup: (string, string) -> LedgerLookup, decide: Decision,
                             accounts: Result<seq<Account>, string>, accountName: string)
    requires |records| > 0
    requires var range := ResolveRange(records).value; LookupFailed(lookup(range.0, range.1))
    ensures var r := Run(records, lookup, decide, accounts, accountName);
      r.Imported? || r.Aborted?
    ensures var r := Run(records, lookup, decide, accounts, accountName);
      r.Imported? ==> r.rows == Format(Candidates(records))
  {
    EmptyLedgerAcceptsAll(Candidates(records), decide);
  }

  /** A single record, against a ledger whose one account has nothing in the
      record's date range, is imported on its own into that account. */
  lemma RunSingleRecord(rec: SourceRecord, lookup: (string, string) -> LedgerLookup, decide: Decision, account: Account)
    requires lookup(ParseDate(rec.processDate), ParseDate(rec.processDate)) == Success([Success([])])
    ensures Run([rec], lookup, decide, Success([account]), account.name) == Imported(account.id, Format([BuildCandidate(rec)]))
  {
    assert [rec][0] == rec;
    assert Candidates([rec]) == [BuildCandidate(rec)];
    EmptyLedgerAcceptsAll([BuildCandidate(rec)], decide);
    assert FirstNamed([account], account.name, 0) == Some(0);
  }
}
