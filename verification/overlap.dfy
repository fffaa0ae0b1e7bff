/** The duplicate heuristic `isTransactionOverlap` of index.js. */
module Overlap {
  import opened Records

  function Abs(x: int): nat
  {
    if x < 0 then -x else x
  }

  /** `Math.abs(existing - candidate) < 1`; any comparison with NaN is false. */
  predicate Near(existing: int, candidate: Amount)
  {
    candidate.Minor? && Abs(existing - candidate.units) < 1
  }

  /** An existing transaction on the same date with a near-equal amount. */
  predicate Matches(e: ExistingTransaction, c: CanonicalTransaction)
  {
    e.date == c.date && Near(e.amount, c.amount)
  }

  /** `existingTransactions.some(...)`: a left-to-right scan for a match. */
  function IsOverlap(c: CanonicalTransaction, existing: seq<ExistingTransaction>): (r: bool)
    ensures r <==> exists i :: 0 <= i < |existing| && Matches(existing[i], c)
    decreases |existing|
  {
    if |existing| == 0 then false
    else if Matches(existing[0], c) then true
    else
      assert forall i :: 1 <= i < |existing| ==> existing[i] == existing[1..][i - 1];
      IsOverlap(c, existing[1..])
  }

  /** Amounts are whole numbers, so "differing by less than 1" is equality. */
  lemma NearIsEquality(existing: int, candidate: Amount)
    ensures Near(existing, candidate) <==> candidate == Minor(existing)
  {
  }

  /** An overlap is exactly a ledger entry with the same date and the same amount. */
  lemma OverlapIsExactMatch(c: CanonicalTransaction, existing: seq<ExistingTransaction>)
    ensures IsOverlap(c, existing) <==>
      exists i :: 0 <= i < |existing| && existing[i].date == c.date && c.amount == Minor(existing[i].amount)
  {
    if IsOverlap(c, existing) {
      var i :| 0 <= i < |existing| && Matches(existing[i], c);
      NearIsEquality(existing[i].amount, c.amount);
    }
  }

  /** A candidate whose amount is NaN never overlaps anything. */
  lemma NotANumberNeverOverlaps(c: CanonicalTransaction, existing: seq<ExistingTransaction>)
    requires c.amount == NotANumber
    ensures !IsOverlap(c, existing)
  {
  }

  /** A candidate never overlaps an empty ledger. */
  lemma EmptyLedgerNeverOverlaps(c: CanonicalTransaction)
    ensures !IsOverlap(c, [])
  {
  }

  /** More existing transactions can only add overlaps. */
  lemma OverlapGrows(c: CanonicalTransaction, existing: seq<ExistingTransaction>, more: seq<ExistingTransaction>)
    ensures IsOverlap(c, existing) ==> IsOverlap(c, existing + more)
    ensures IsOverlap(c, more) ==> IsOverlap(c, existing + more)
  {
    if IsOverlap(c, more) {
      var i :| 0 <= i < |more| && Matches(more[i], c);
      assert (existing + more)[|existing| + i] == more[i];
    }
    if IsOverlap(c, existing) {
      var i :| 0 <= i < |existing| && Matches(existing[i], c);
      assert (existing + more)[i] == existing[i];
    }
  }
}
