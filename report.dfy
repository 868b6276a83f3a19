/** The dashboard summary: for each collection, a group-by on status (count
    and amount per status) folded into six totals, with 0 for every total
    when the collection is empty. */
module ReportController {
  import opened Common
  import opened Models
  import opened Store
  import opened ReconcileController

  /** One output document of the first `$group` stage. */
  datatype Bucket = Bucket(id: Status, count: nat, totalAmount: int)

  /** Adds one record to its status's bucket, opening the bucket on first
      sight. */
  function AddToBuckets(buckets: seq<Bucket>, s: Status, amount: int): (added: seq<Bucket>)
    ensures |added| > 0
  {
    if |buckets| == 0 then [Bucket(s, 1, amount)]
    else if buckets[0].id == s then [buckets[0].(count := buckets[0].count + 1, totalAmount := buckets[0].totalAmount + amount)] + buckets[1..]
    else [buckets[0]] + AddToBuckets(buckets[1..], s, amount)
  }

  /** The first stage: `$group` by `$status` with a count and an amount sum. */
  function GroupByStatus<D>(docs: seq<D>, status: D -> Status, amount: D -> int): (buckets: seq<Bucket>)
    ensures |buckets| == 0 <==> |docs| == 0
  {
    if |docs| == 0 then []
    else
      var last := docs[|docs| - 1];
      AddToBuckets(GroupByStatus(docs[..|docs| - 1], status, amount), status(last), amount(last))
  }

  /** `$sum` of the bucket counts. */
  function CountAll(buckets: seq<Bucket>): int
  {
    if |buckets| == 0 then 0 else buckets[0].count + CountAll(buckets[1..])
  }

  /** `$sum` of `$cond: [{$eq: ["$_id", s]}, "$count", 0]`. */
  function CountFor(buckets: seq<Bucket>, s: Status): int
  {
    if |buckets| == 0 then 0 else (if buckets[0].id == s then buckets[0].count else 0) + CountFor(buckets[1..], s)
  }

  /** `$sum` of the bucket amounts. */
  function AmountAll(buckets: seq<Bucket>): int
  {
    if |buckets| == 0 then 0 else buckets[0].totalAmount + AmountAll(buckets[1..])
  }

  /** `$sum` of `$cond: [{$eq: ["$_id", s]}, "$totalAmount", 0]`. */
  function AmountFor(buckets: seq<Bucket>, s: Status): int
  {
    if |buckets| == 0 then 0 else (if buckets[0].id == s then buckets[0].totalAmount else 0) + AmountFor(buckets[1..], s)
  }

  /** The six totals of one collection. */
  datatype Totals = Totals(total: int, pending: int, reconciled: int, totalAmount: int, pendingAmount: int, reconciledAmount: int)

  /** The second stage, `$group` with `_id: null`: no bucket gives no output
      document at all. */
  function FoldBuckets(buckets: seq<Bucket>): Option<Totals>
  {
    if |buckets| == 0 then None
    else Some(Totals(CountAll(buckets), CountFor(buckets, Pending), CountFor(buckets, Reconciled),
                     AmountAll(buckets), AmountFor(buckets, Pending), AmountFor(buckets, Reconciled)))
  }

  /** `summary[0]?.field || 0` for every field: a missing document gives 0
      everywhere, and `x || 0` is `x` for any number. */
  function WithZeroDefaults(summary: Option<Totals>): Totals
  {
    match summary
    case None => Totals(0, 0, 0, 0, 0, 0)
    case Some(t) => t
  }

  /** The aggregation of one collection. */
  function Summarize<D>(docs: seq<D>, status: D -> Status, amount: D -> int): Totals
  {
    WithZeroDefaults(FoldBuckets(GroupByStatus(docs, status, amount)))
  }

  /** The `data` of the response: each collection summarized on its own. */
  datatype ReportData = ReportData(invoices: Totals, transactions: Totals)

  /** `reportSummary`. */
  function ReportSummary(invoices: seq<Invoice>, transactions: seq<Transaction>): ReportData
  {
    ReportData(Summarize(invoices, InvoiceStatus, InvoiceAmount), Summarize(transactions, TransactionStatus, TransactionAmount))
  }

  /** The number of records with status `s`. */
  function CountWithStatus<D>(docs: seq<D>, status: D -> Status, s: Status): nat
  {
    if |docs| == 0 then 0
    else CountWithStatus(docs[..|docs| - 1], status, s) + (if status(docs[|docs| - 1]) == s then 1 else 0)
  }

  /** The amount total of the records with status `s`. */
  function AmountWithStatus<D>(docs: seq<D>, status: D -> Status, amount: D -> int, s: Status): int
  {
    if |docs| == 0 then 0
    else AmountWithStatus(docs[..|docs| - 1], status, amount, s) + (if status(docs[|docs| - 1]) == s then amount(docs[|docs| - 1]) else 0)
  }

  /** Adding a record to the buckets adds one to its status's count and to
      the total count, and its amount to its status's amount and to the total
      amount. */
  lemma {:induction false} AddToBucketsCounts(buckets: seq<Bucket>, s: Status, amount: int, t: Status)
    ensures CountAll(AddToBuckets(buckets, s, amount)) == CountAll(buckets) + 1
    ensures CountFor(AddToBuckets(buckets, s, amount), t) == CountFor(buckets, t) + (if s == t then 1 else 0)
    ensures AmountAll(AddToBuckets(buckets, s, amount)) == AmountAll(buckets) + amount
    ensures AmountFor(AddToBuckets(buckets, s, amount), t) == AmountFor(buckets, t) + (if s == t then amount else 0)
  {
    if |buckets| > 0 && buckets[0].id != s {
      AddToBucketsCounts(buckets[1..], s, amount, t);
      var added := AddToBuckets(buckets, s, amount);
      assert added[1..] == AddToBuckets(buckets[1..], s, amount);
    } else if |buckets| > 0 {
      var added := AddToBuckets(buckets, s, amount);
      assert added[1..] == buckets[1..];
    }
  }

  /** The bucket sums are the direct counts and amount totals. */
  lemma {:induction false} GroupByStatusTotals<D>(docs: seq<D>, status: D -> Status, amount: D -> int, s: Status)
    ensures var buckets := GroupByStatus(docs, status, amount);
            CountAll(buckets) == |docs| &&
            CountFor(buckets, s) == CountWithStatus(docs, status, s) &&
            AmountAll(buckets) == Total(docs, amount) &&
            AmountFor(buckets, s) == AmountWithStatus(docs, status, amount, s)
  {
    if |docs| > 0 {
      var n := |docs| - 1;
      GroupByStatusTotals(docs[..n], status, amount, s);
      AddToBucketsCounts(GroupByStatus(docs[..n], status, amount), status(docs[n]), amount(docs[n]), s);
    }
  }

  /** The summary of a collection is its size, the numbers of records whose
      status is exactly Pending and exactly Reconciled, and the amount totals
      over all records and over those two statuses; records of any other
      status count only toward the overall totals. */
  lemma SummaryIsDirectCount<D>(docs: seq<D>, status: D -> Status, amount: D -> int)
    ensures Summarize(docs, status, amount)
            == Totals(|docs|, CountWithStatus(docs, status, Pending), CountWithStatus(docs, status, Reconciled),
                      Total(docs, amount), AmountWithStatus(docs, status, amount, Pending), AmountWithStatus(docs, status, amount, Reconciled))
  {
    if |docs| > 0 {
      GroupByStatusTotals(docs, status, amount, Pending);
      GroupByStatusTotals(docs, status, amount, Reconciled);
    }
  }

  lemma {:induction false} TwoStatusesWithinAll<D>(docs: seq<D>, status: D -> Status, amount: D -> int)
    ensures CountWithStatus(docs, status, Pending) + CountWithStatus(docs, status, Reconciled) <= |docs|
    ensures (forall i :: 0 <= i < |docs| ==> amount(docs[i]) >= 0) ==>
              AmountWithStatus(docs, status, amount, Pending) + AmountWithStatus(docs, status, amount, Reconciled) <= Total(docs, amount)
  {
    if |docs| > 0 {
      TwoStatusesWithinAll(docs[..|docs| - 1], status, amount);
    }
  }

  /** Pending and reconciled records are at most all records, and with
      non-negative amounts their amounts are at most the total amount. */
  lemma PendingAndReconciledWithinTotal<D>(docs: seq<D>, status: D -> Status, amount: D -> int)
    ensures var t := Summarize(docs, status, amount);
            t.pending + t.reconciled <= t.total &&
            ((forall i :: 0 <= i < |docs| ==> amount(docs[i]) >= 0) ==> t.pendingAmount + t.reconciledAmount <= t.totalAmount)
  {
    SummaryIsDirectCount(docs, status, amount);
    TwoStatusesWithinAll(docs, status, amount);
  }

  /** An empty collection reports 0 for every total. */
  lemma EmptyCollectionReportsZeros(transactions: seq<Transaction>)
    ensures ReportSummary([], transactions).invoices == Totals(0, 0, 0, 0, 0, 0)
    ensures ReportSummary([], transactions).transactions == Summarize(transactions, TransactionStatus, TransactionAmount)
  {
  }

  lemma WithStatusCounts<D(!new)>(docs: seq<D>, status: D -> Status, amount: D -> int, s: Status)
    ensures |WithStatus(docs, status, s)| == CountWithStatus(docs, status, s)
    ensures Total(WithStatus(docs, status, s), amount) == AmountWithStatus(docs, status, amount, s)
  {
    WithStatusCount(docs, status, s);
    WithStatusAmount(docs, status, amount, s);
  }

  lemma {:induction false} WithStatusCount<D(!new)>(docs: seq<D>, status: D -> Status, s: Status)
    ensures |WithStatus(docs, status, s)| == CountWithStatus(docs, status, s)
  {
    if |docs| > 0 {
      WithStatusCount(docs[..|docs| - 1], status, s);
    }
  }

  lemma {:induction false} WithStatusAmount<D(!new)>(docs: seq<D>, status: D -> Status, amount: D -> int, s: Status)
    ensures Total(WithStatus(docs, status, s), amount) == AmountWithStatus(docs, status, amount, s)
  {
    if |docs| > 0 {
      var n := |docs| - 1;
      WithStatusAmount(docs[..n], status, amount, s);
      var prior := WithStatus(docs[..n], status, s);
      if status(docs[n]) == s {
        TotalAppendOne(prior, docs[n], amount);
      } else {
        assert prior + [] == prior;
      }
    }
  }

  /** The dashboard and the reconciliation report agree: the reconciled
      count and amount of each collection are the report's summary values. */
  lemma SummaryAgreesWithReconciledReport(invoices: seq<Invoice>, transactions: seq<Transaction>)
    ensures var summary := ReportSummary(invoices, transactions);
            var rows := ReconciledReport(invoices, transactions)[2].rows;
            summary.invoices.reconciled == rows[0].value &&
            summary.invoices.reconciledAmount == rows[1].value &&
            summary.transactions.reconciled == rows[2].value &&
            summary.transactions.reconciledAmount == rows[3].value
  {
    SummaryIsDirectCount(invoices, InvoiceStatus, InvoiceAmount);
    SummaryIsDirectCount(transactions, TransactionStatus, TransactionAmount);
    WithStatusCounts(invoices, InvoiceStatus, InvoiceAmount, Reconciled);
    WithStatusCounts(transactions, TransactionStatus, TransactionAmount, Reconciled);
  }
}
