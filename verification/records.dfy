/** The entities the importer handles: the bank's raw records, the canonical
    transactions built from them, and the ledger's existing transactions. */
module Records {
  import opened Basics

  /** A JavaScript number as the importer produces it for a money amount:
      an integer count of minor units, or NaN when `parseInt` found no digits. */
  datatype Amount = Minor(units: int) | NotANumber

  /** Multiplication of an amount by an integer factor; NaN stays NaN. */
  function Scale(a: Amount, k: int): Amount
  {
    match a
    case Minor(v) => Minor(v * k)
    case NotANumber => NotANumber
  }

  /** One transaction as the bank's history export delivers it. */
  datatype SourceRecord = SourceRecord(
    processDate: string,
    amount: string,
    dorC: string,
    remark: string,
    corresponsiveName: Option<string>)

  /** A transaction in the shape the importer builds and hands to the ledger. */
  datatype CanonicalTransaction = CanonicalTransaction(
    date: string,
    amount: Amount,
    payeeName: string,
    notes: string,
    cleared: bool)

  /** A transaction already stored in the ledger; only date and amount are read. */
  datatype ExistingTransaction = ExistingTransaction(date: string, amount: int)
}
