/** The per-record loop of `main` in index.js: each bank record becomes a
    candidate transaction, and a candidate that overlaps the ledger is kept
    only when the user agrees to overwrite it. */
module Reconciliation {
  import opened Basics
  import opened Records
  import opened FieldParsers
  import opened Overlap

  /** The human's answer to the overwrite prompt for the candidate at a given
      position of the batch. */
  type Decision = (nat, CanonicalTransaction) -> bool

  /** The answer "no" to every prompt (the prompt's own default). */
  function DeclineAll(position: nat, c: CanonicalTransaction): bool
  {
    false
  }

  /** `-1` for a debit marker, `1` for every other marker. */
  function Sign(dorC: string): int
  {
    if dorC == "D" then -1 else 1
  }

  /** Whether the bank gave a counterparty name that JavaScript treats as truthy. */
  predicate HasCounterparty(r: SourceRecord)
  {
    r.corresponsiveName.Some? && r.corresponsiveName.value != ""
  }

  /** `corresponsiveName || remark`: the counterparty name unless it is missing or empty. */
  function PayeeName(r: SourceRecord): (payee: string)
    ensures HasCounterparty(r) ==> payee == r.corresponsiveName.value
    ensures !HasCounterparty(r) ==> payee == r.remark
  {
    match r.corresponsiveName
    case Some(name) => if name != "" then name else r.remark
    case None => r.remark
  }

  /** The transaction object built for one bank record: the converted date, the
      signed amount, the payee, the remark as notes, and marked cleared. */
  function BuildCandidate(r: SourceRecord): (c: CanonicalTransaction)
    ensures c.date == ParseDate(r.processDate)
    ensures c.notes == r.remark && c.cleared
    ensures HasCounterparty(r) ==> c.payeeName == r.corresponsiveName.value
    ensures !HasCounterparty(r) ==> c.payeeName == r.remark
  {
    CanonicalTransaction(ParseDate(r.processDate), Scale(ParseAmount(r.amount), Sign(r.dorC)), PayeeName(r), r.remark, true)
  }

  /** A debit record's amount is the parsed amount negated; any other marker keeps it. */
  lemma SignedAmount(r: SourceRecord)
    ensures ParseAmount(r.amount).Minor? ==> BuildCandidate(r).amount.Minor?
    ensures ParseAmount(r.amount).Minor? && r.dorC == "D" ==>
      BuildCandidate(r).amount.units == -ParseAmount(r.amount).units
    ensures ParseAmount(r.amount).Minor? && r.dorC != "D" ==>
      BuildCandidate(r).amount.units == ParseAmount(r.amount).units
    ensures ParseAmount(r.amount) == NotANumber ==> BuildCandidate(r).amount == NotANumber
  {
  }

  /** Flipping a record's marker from credit to debit flips the sign of its amount
      and changes nothing else. */
  lemma DebitMirrorsCredit(r: SourceRecord)
    requires r.dorC == "C"
    ensures var d := BuildCandidate(r.(dorC := "D"));
            var c := BuildCandidate(r);
            && d == c.(amount := Scale(c.amount, -1))
            && (c.amount.Minor? ==> d.amount.units == -c.amount.units)
  {
  }

  /** The candidate of every record, in input order. */
  function Candidates(records: seq<SourceRecord>): (cs: seq<CanonicalTransaction>)
    ensures |cs| == |records|
    ensures forall i :: 0 <= i < |records| ==> cs[i] == BuildCandidate(records[i])
  {
    seq(|records|, i requires 0 <= i < |records| => BuildCandidate(records[i]))
  }

  /** Whether the loop pushes the candidate at position `i` into the batch. */
  predicate Keeps(cands: seq<CanonicalTransaction>, existing: seq<ExistingTransaction>, decide: Decision, i: nat)
    requires i < |cands|
  {
    !IsOverlap(cands[i], existing) || decide(i, cands[i])
  }

  /** The batch after the loop has seen the first `n` candidates. */
  function Accept(cands: seq<CanonicalTransaction>, existing: seq<ExistingTransaction>, decide: Decision, n: nat): seq<CanonicalTransaction>
    requires n <= |cands|
    decreases n
  {
    if n == 0 then []
    else if Keeps(cands, existing, decide, n - 1) then Accept(cands, existing, decide, n - 1) + [cands[n - 1]]
    else Accept(cands, existing, decide, n - 1)
  }

  /** The batch after the whole loop. */
  function AcceptAll(cands: seq<CanonicalTransaction>, existing: seq<ExistingTransaction>, decide: Decision): seq<CanonicalTransaction>
  {
    Accept(cands, existing, decide, |cands|)
  }

  /** The body of the loop of `main`, run over the candidates in input order:
      check each for overlap, ask about the overlapping ones, push the kept ones. */
  method ReconcileCandidates(cands: seq<CanonicalTransaction>, existing: seq<ExistingTransaction>, decide: Decision)
    returns (batch: seq<CanonicalTransaction>)
    ensures batch == AcceptAll(cands, existing, decide)
  {
    batch := [];
    var i := 0;
    while i < |cands|
      invariant 0 <= i <= |cands|
      invariant batch == Accept(cands, existing, decide, i)
    {
      var c := cands[i];
      var keep := true;
      if IsOverlap(c, existing) {
        keep := decide(i, c);
      }
      if keep {
        batch := batch + [c];
      }
      i := i + 1;
    }
  }

  /** The loop of `main`: each record's candidate, filtered as above. */
  method Reconcile(records: seq<SourceRecord>, existing: seq<ExistingTransaction>, decide: Decision)
    returns (batch: seq<CanonicalTransaction>)
    ensures |batch| <= |records|
    ensures batch == AcceptAll(Candidates(records), existing, decide)
  {
    batch := ReconcileCandidates(Candidates(records), existing, decide);
    AcceptLength(Candidates(records), existing, decide, |records|);
  }

  /** The batch never holds more transactions than the loop has seen. */
  lemma {:induction false} AcceptLength(cands: seq<CanonicalTransaction>, existing: seq<ExistingTransaction>, decide: Decision, n: nat)
    requires n <= |cands|
    ensures |Accept(cands, existing, decide, n)| <= n
    decreases n
  {
    if n > 0 {
      AcceptLength(cands, existing, decide, n - 1);
    }
  }

  /** `idx` lists, in increasing order, positions of `b` whose elements spell out `a`. */
  ghost predicate Embeds<T>(a: seq<T>, b: seq<T>, idx: seq<nat>)
  {
    && |idx| == |a|
    && (forall k :: 0 <= k < |idx| ==> idx[k] < |b| && a[k] == b[idx[k]])
    && (forall k, l :: 0 <= k < l < |idx| ==> idx[k] < idx[l])
  }

  /** The positions among the first `n` whose candidates the loop keeps. */
  function KeptPositions(cands: seq<CanonicalTransaction>, existing: seq<ExistingTransaction>, decide: Decision, n: nat): (idx: seq<nat>)
    requires n <= |cands|
    ensures forall k :: 0 <= k < |idx| ==> idx[k] < n
    decreases n
  {
    if n == 0 then []
    else if Keeps(cands, existing, decide, n - 1) then KeptPositions(cands, existing, decide, n - 1) + [n - 1]
    else KeptPositions(cands, existing, decide, n - 1)
  }

  /** The batch is the subsequence of the candidates at exactly the positions
      the loop keeps: every non-overlapping candidate, and each overlapping one
      for which the user answered yes, in input order. */
  lemma {:induction false} AcceptSelectsKept(cands: seq<CanonicalTransaction>, existing: seq<ExistingTransaction>, decide: Decision, n: nat)
    requires n <= |cands|
    ensures Embeds(Accept(cands, existing, decide, n), cands, KeptPositions(cands, existing, decide, n))
    ensures forall i :: 0 <= i < n ==>
      (i in KeptPositions(cands, existing, decide, n) <==> Keeps(cands, existing, decide, i))
    decreases n
  {
    if n > 0 {
      AcceptSelectsKept(cands, existing, decide, n - 1);
    }
  }

  /** The batch is an order-preserving subsequence of the candidates. */
  lemma AcceptIsSubsequence(cands: seq<CanonicalTransaction>, existing: seq<ExistingTransaction>, decide: Decision)
    ensures exists idx :: Embeds(AcceptAll(cands, existing, decide), cands, idx)
  {
    AcceptSelectsKept(cands, existing, decide, |cands|);
    assert Embeds(AcceptAll(cands, existing, decide), cands, KeptPositions(cands, existing, decide, |cands|));
  }

  /** Every candidate in the batch either overlaps nothing or was approved by the user. */
  lemma AcceptedAreCleanOrApproved(cands: seq<CanonicalTransaction>, existing: seq<ExistingTransaction>, decide: Decision)
    ensures forall k :: 0 <= k < |AcceptAll(cands, existing, decide)| ==>
      var c := AcceptAll(cands, existing, decide)[k];
      !IsOverlap(c, existing) || exists i :: 0 <= i < |cands| && cands[i] == c && decide(i, c)
  {
    var batch := AcceptAll(cands, existing, decide);
    var idx := KeptPositions(cands, existing, decide, |cands|);
    AcceptSelectsKept(cands, existing, decide, |cands|);
    forall k | 0 <= k < |batch|
      ensures !IsOverlap(batch[k], existing) || exists i :: 0 <= i < |cands| && cands[i] == batch[k] && decide(i, batch[k])
    {
      assert idx[k] in idx;
    }
  }

  /** Every candidate that overlaps nothing is in the batch. */
  lemma NonOverlappingAreAccepted(cands: seq<CanonicalTransaction>, existing: seq<ExistingTransaction>, decide: Decision, i: nat)
    requires i < |cands| && !IsOverlap(cands[i], existing)
    ensures cands[i] in AcceptAll(cands, existing, decide)
  {
    var batch := AcceptAll(cands, existing, decide);
    var idx := KeptPositions(cands, existing, decide, |cands|);
    AcceptSelectsKept(cands, existing, decide, |cands|);
    assert i in idx;
    var k :| 0 <= k < |idx| && idx[k] == i;
    assert batch[k] == cands[i];
  }

  /** When nothing overlaps, the batch is every candidate in order. */
  lemma {:induction false} NoOverlapAcceptsAll(cands: seq<CanonicalTransaction>, existing: seq<ExistingTransaction>, decide: Decision, n: nat)
    requires n <= |cands|
    requires forall i :: 0 <= i < |cands| ==> !IsOverlap(cands[i], existing)
    ensures Accept(cands, existing, decide, n) == cands[..n]
    decreases n
  {
    if n > 0 {
      NoOverlapAcceptsAll(cands, existing, decide, n - 1);
      assert cands[..n] == cands[..n - 1] + [cands[n - 1]];
    }
  }

  /** With an empty ledger, which is also what a failed lookup leaves, every
      candidate is imported in order. */
  lemma EmptyLedgerAcceptsAll(cands: seq<CanonicalTransaction>, decide: Decision)
    ensures AcceptAll(cands, [], decide) == cands
  {
    NoOverlapAcceptsAll(cands, [], decide, |cands|);
    assert cands[..|cands|] == cands;
  }

  /** If every candidate overlaps and every prompt is declined, the batch is empty. */
  lemma {:induction false} AllDeclinedAcceptsNothing(cands: seq<CanonicalTransaction>, existing: seq<ExistingTransaction>, n: nat)
    requires n <= |cands|
    requires forall i :: 0 <= i < |cands| ==> IsOverlap(cands[i], existing)
    ensures Accept(cands, existing, DeclineAll, n) == []
    decreases n
  {
    if n > 0 {
      AllDeclinedAcceptsNothing(cands, existing, n - 1);
    }
  }

  /** The ledger entries that importing `batch` creates, as a later lookup sees them. */
  function Recorded(batch: seq<CanonicalTransaction>): (es: seq<ExistingTransaction>)
    requires forall k :: 0 <= k < |batch| ==> batch[k].amount.Minor?
    ensures |es| == |batch|
    ensures forall k :: 0 <= k < |batch| ==> Matches(es[k], batch[k])
  {
    seq(|batch|, k requires 0 <= k < |batch| => ExistingTransaction(batch[k].date, batch[k].amount.units))
  }

  /** A second pass of the loop over the same candidates, whose existing set
      holds everything the first pass accepted, keeps nothing when every prompt
      is declined: each candidate was either declined the first time (so it
      still overlaps) or now has its own entry among the existing ones. */
  lemma SecondRunImportsNothing(cands: seq<CanonicalTransaction>, existing: seq<ExistingTransaction>, decide: Decision)
    requires forall i :: 0 <= i < |cands| ==> cands[i].amount.Minor?
    ensures forall k :: 0 <= k < |AcceptAll(cands, existing, decide)| ==> AcceptAll(cands, existing, decide)[k].amount.Minor?
    ensures AcceptAll(cands, existing + Recorded(AcceptAll(cands, existing, decide)), DeclineAll) == []
  {
    var batch := AcceptAll(cands, existing, decide);
    var idx := KeptPositions(cands, existing, decide, |cands|);
    AcceptSelectsKept(cands, existing, decide, |cands|);
    assert forall k :: 0 <= k < |batch| ==> batch[k].amount.Minor? by {
      forall k | 0 <= k < |batch| ensures batch[k].amount.Minor? {
        assert batch[k] == cands[idx[k]];
      }
    }
    var after := existing + Recorded(batch);
    forall i | 0 <= i < |cands| ensures IsOverlap(cands[i], after) {
      OverlapGrows(cands[i], existing, Recorded(batch));
      if !IsOverlap(cands[i], existing) {
        assert i in idx;
        var k :| 0 <= k < |idx| && idx[k] == i;
        assert Matches(Recorded(batch)[k], cands[i]);
      }
    }
    AllDeclinedAcceptsNothing(cands, after, |cands|);
  }

  /** A record whose amount has no digits is always in the accepted batch,
      whatever the ledger holds: NaN matches nothing. So every run that imports
      anything imports it again. */
  lemma NotANumberAlwaysAccepted(cands: seq<CanonicalTransaction>, existing: seq<ExistingTransaction>, decide: Decision, i: nat)
    requires i < |cands| && cands[i].amount == NotANumber
    ensures cands[i] in AcceptAll(cands, existing, decide)
  {
    NotANumberNeverOverlaps(cands[i], existing);
    NonOverlappingAreAccepted(cands, existing, decide, i);
  }

  /** The worked example: "100" marked "D" becomes -10000 minor units, marked "C" +10000. */
  lemma SignExamples(processDate: string, remark: string, name: Option<string>)
    ensures BuildCandidate(SourceRecord(processDate, "100", "D", remark, name)).amount == Minor(-10000)
    ensures BuildCandidate(SourceRecord(processDate, "100", "C", remark, name)).amount == Minor(10000)
  {
    ParseAmountHundredExample();
  }
}
