/** `addTransactions` of index.js: choose the destination account by name and
    shape the accepted transactions for the ledger's import call. */
module Commit {
  import opened Basics
  import opened Records

  /** A ledger account as the account listing returns it. */
  datatype Account = Account(id: string, name: string)

  /** The object handed to the ledger's import call for one transaction. */
  datatype ImportRow = ImportRow(date: string, amount: Amount, payee_name: string, notes: string, cleared: bool)

  /** Why a run ends without importing anything. */
  datatype RunError =
    | NoRecords                      // the transactions array is empty
    | NoAccounts                     // the ledger lists no accounts at all
    | AccountNotFound(name: string)  // no account carries the configured name
    | LedgerFailure(message: string) // the ledger rejected a request

  /** `accounts.find(acc => acc.name === name)` over the accounts from `from` on:
      the position of the first account with that name, if any. */
  function FirstNamed(accounts: seq<Account>, name: string, from: nat): (r: Option<nat>)
    requires from <= |accounts|
    ensures r.Some? ==> from <= r.value < |accounts| && accounts[r.value].name == name
    ensures r.Some? ==> forall j :: from <= j < r.value ==> accounts[j].name != name
    ensures r.None? ==> forall j :: from <= j < |accounts| ==> accounts[j].name != name
    decreases |accounts| - from
  {
    if from == |accounts| then None
    else if accounts[from].name == name then Some(from)
    else FirstNamed(accounts, name, from + 1)
  }

  /** The destination account: an error when the ledger has no accounts or none
      with the configured name, otherwise the first account with that name. */
  function SelectAccount(accounts: seq<Account>, name: string): (r: Result<Account, RunError>)
    ensures r == Failure(NoAccounts) <==> |accounts| == 0
    ensures r == Failure(AccountNotFound(name)) <==>
      |accounts| > 0 && forall j :: 0 <= j < |accounts| ==> accounts[j].name != name
    ensures r.Failure? ==> r.error == NoAccounts || r.error == AccountNotFound(name)
    ensures r.Success? ==> r.value.name == name
    ensures r.Success? ==>
      exists i :: 0 <= i < |accounts| && accounts[i] == r.value && forall j :: 0 <= j < i ==> accounts[j].name != name
  {
    if |accounts| == 0 then Failure(NoAccounts)
    else match FirstNamed(accounts, name, 0)
      case None => Failure(AccountNotFound(name))
      case Some(i) => Success(accounts[i])
  }

  function ToRow(t: CanonicalTransaction): ImportRow
  {
    ImportRow(t.date, t.amount, t.payeeName, t.notes, t.cleared)
  }

  function FromRow(row: ImportRow): CanonicalTransaction
  {
    CanonicalTransaction(row.date, row.amount, row.payee_name, row.notes, row.cleared)
  }

  /** `transactions.map(...)`: one import row per transaction, in order, carrying
      its date, amount, payee, notes and cleared flag. */
  function Format(batch: seq<CanonicalTransaction>): (rows: seq<ImportRow>)
    ensures |rows| == |batch|
    ensures forall k :: 0 <= k < |batch| ==>
      && rows[k].date == batch[k].date
      && rows[k].amount == batch[k].amount
      && rows[k].payee_name == batch[k].payeeName
      && rows[k].notes == batch[k].notes
      && rows[k].cleared == batch[k].cleared
  {
    seq(|batch|, k requires 0 <= k < |batch| => ToRow(batch[k]))
  }

  /** Formatting loses nothing: the batch can be read back from the rows. */
  lemma FormatRoundTrip(batch: seq<CanonicalTransaction>)
    ensures seq(|Format(batch)|, k requires 0 <= k < |Format(batch)| => FromRow(Format(batch)[k])) == batch
  {
  }

  /** Distinct batches give distinct import rows. */
  lemma FormatInjective(a: seq<CanonicalTransaction>, b: seq<CanonicalTransaction>)
    requires Format(a) == Format(b)
    ensures a == b
  {
    assert |a| == |b|;
    forall k | 0 <= k < |a| ensures a[k] == b[k] {
      assert Format(a)[k] == Format(b)[k];
    }
  }
}
