/** Reconciliation: a selection of invoices is matched against a selection of
    transactions by their amount totals, and on a match both selections are
    marked reconciled. Also the content of the reconciled report: the
    reconciled records and a four-row summary. */
module ReconcileController {
  import opened Common
  import opened Models
  import opened Headers
  import opened Store

  /** 400 "The sum of selected invoices and transactions must match." or
      200 "Reconciliation successful.". */
  datatype ReconcileResponse = AmountsDiffer | ReconcileDone

  /** The invoice update's `$set`. */
  function MarkInvoiceReconciled(inv: Invoice): (marked: Invoice)
    ensures marked.status == Reconciled && marked.outstandingAmount == Some(0)
    ensures marked.(status := inv.status, outstandingAmount := inv.outstandingAmount) == inv
  {
    inv.(status := Reconciled, outstandingAmount := Some(0))
  }

  /** The transaction update's `$set`. */
  function MarkTransactionReconciled(txn: Transaction): (marked: Transaction)
    ensures marked.status == Reconciled
    ensures marked.(status := txn.status) == txn
  {
    txn.(status := Reconciled)
  }

  /** The amount total of the stored records a selection finds. */
  function SelectedTotal<D(!new)>(docs: seq<D>, key: D -> string, amount: D -> int, selected: seq<string>): int
  {
    Total(Matching(docs, key, selected), amount)
  }

  /** The response and both collections after a reconciliation request. */
  function ReconcileOutcome(invoices: seq<Invoice>, transactions: seq<Transaction>,
                            selectedInvoices: seq<string>, selectedTransactions: seq<string>): (ReconcileResponse, seq<Invoice>, seq<Transaction>)
  {
    if SelectedTotal(invoices, InvoiceKey, InvoiceAmount, selectedInvoices)
       != SelectedTotal(transactions, TransactionKey, TransactionAmount, selectedTransactions)
    then (AmountsDiffer, invoices, transactions)
    else (ReconcileDone,
          Updated(invoices, InvoiceKey, selectedInvoices, MarkInvoiceReconciled),
          Updated(transactions, TransactionKey, selectedTransactions, MarkTransactionReconciled))
  }

  /** `reconcileData`: find both selections, compare their totals, and on a
      match update both collections. The two updates run one after the
      other here. */
  method ReconcileData(db: Database, selectedInvoices: seq<string>, selectedTransactions: seq<string>) returns (response: ReconcileResponse)
    requires db.Valid()
    modifies db
    ensures db.Valid()
    ensures (response, db.invoices, db.transactions)
            == ReconcileOutcome(old(db.invoices), old(db.transactions), selectedInvoices, selectedTransactions)
  {
    var invoices := Matching(db.invoices, InvoiceKey, selectedInvoices);
    var transactions := Matching(db.transactions, TransactionKey, selectedTransactions);
    var totalInvoiceAmount := Total(invoices, InvoiceAmount);
    var totalTransactionAmount := Total(transactions, TransactionAmount);
    if totalInvoiceAmount != totalTransactionAmount {
      return AmountsDiffer;
    }
    db.UpdateInvoices(selectedInvoices, MarkInvoiceReconciled);
    db.UpdateTransactions(selectedTransactions, MarkTransactionReconciled);
    response := ReconcileDone;
  }

  /** A selection's total depends only on which stored ids it names: ids
      that are not stored add nothing, and an id named twice counts once. */
  lemma SelectedTotalIgnoresAbsentAndRepeatedIds<D(!new)>(docs: seq<D>, key: D -> string, amount: D -> int,
                                                           selected: seq<string>, absent: seq<string>)
    requires forall i :: 0 <= i < |docs| ==> key(docs[i]) !in absent
    ensures SelectedTotal(docs, key, amount, selected + absent) == SelectedTotal(docs, key, amount, selected)
    ensures SelectedTotal(docs, key, amount, selected + selected) == SelectedTotal(docs, key, amount, selected)
  {
    MatchingDependsOnStoredKeys(docs, key, selected + absent, selected);
    MatchingDependsOnStoredKeys(docs, key, selected + selected, selected);
  }

  /** The request fails exactly when the totals differ, and then neither
      collection changes. */
  lemma MismatchChangesNothing(invoices: seq<Invoice>, transactions: seq<Transaction>,
                               selectedInvoices: seq<string>, selectedTransactions: seq<string>)
    ensures var (response, invoices', transactions') := ReconcileOutcome(invoices, transactions, selectedInvoices, selectedTransactions);
            (response == AmountsDiffer <==>
               SelectedTotal(invoices, InvoiceKey, InvoiceAmount, selectedInvoices)
               != SelectedTotal(transactions, TransactionKey, TransactionAmount, selectedTransactions)) &&
            (response == AmountsDiffer ==> invoices' == invoices && transactions' == transactions)
  {
  }

  /** After a successful request every stored invoice with a selected id is
      reconciled with nothing outstanding, every stored transaction with a
      selected id is reconciled (a status the transaction schema does not
      list), every other field is kept, and records with unselected ids are
      unchanged; the order and the number of records stay. */
  lemma ReconcileMarksExactlyTheSelection(invoices: seq<Invoice>, transactions: seq<Transaction>,
                                          selectedInvoices: seq<string>, selectedTransactions: seq<string>)
    requires ReconcileOutcome(invoices, transactions, selectedInvoices, selectedTransactions).0 == ReconcileDone
    ensures var (_, invoices', transactions') := ReconcileOutcome(invoices, transactions, selectedInvoices, selectedTransactions);
            |invoices'| == |invoices| && |transactions'| == |transactions| &&
            (forall i :: 0 <= i < |invoices| ==>
               if invoices[i].invoiceId in selectedInvoices
               then invoices'[i].status == Reconciled && invoices'[i].outstandingAmount == Some(0) &&
                    invoices'[i].(status := invoices[i].status, outstandingAmount := invoices[i].outstandingAmount) == invoices[i]
               else invoices'[i] == invoices[i]) &&
            (forall i :: 0 <= i < |transactions| ==>
               if transactions[i].transactionId in selectedTransactions
               then transactions'[i].status == Reconciled && !InTransactionSchema(transactions'[i].status) &&
                    transactions'[i].(status := transactions[i].status) == transactions[i]
               else transactions'[i] == transactions[i])
  {
  }

  /** A selection's total grows by the last record's amount exactly when
      its key is selected. */
  lemma SelectedTotalStep<D(!new)>(docs: seq<D>, key: D -> string, amount: D -> int, selected: seq<string>)
    requires |docs| > 0
    ensures var n := |docs| - 1;
            SelectedTotal(docs, key, amount, selected)
            == SelectedTotal(docs[..n], key, amount, selected) + (if key(docs[n]) in selected then amount(docs[n]) else 0)
  {
    var n := |docs| - 1;
    var found := Matching(docs[..n], key, selected);
    if key(docs[n]) in selected {
      TotalAppendOne(found, docs[n], amount);
    } else {
      assert found + [] == found;
    }
  }

  /** Rewriting records without changing their keys or amounts keeps every
      selection's total. */
  lemma {:induction false} UpdateKeepsSelectedTotal<D(!new)>(docs: seq<D>, key: D -> string, amount: D -> int,
                                                             ids: seq<string>, change: D -> D, selected: seq<string>)
    requires forall d :: key(change(d)) == key(d) && amount(change(d)) == amount(d)
    ensures SelectedTotal(Updated(docs, key, ids, change), key, amount, selected) == SelectedTotal(docs, key, amount, selected)
  {
    if |docs| > 0 {
      var n := |docs| - 1;
      UpdateKeepsSelectedTotal(docs[..n], key, amount, ids, change, selected);
      var updated := Updated(docs, key, ids, change);
      assert updated[..n] == Updated(docs[..n], key, ids, change);
      assert key(updated[n]) == key(docs[n]) && amount(updated[n]) == amount(docs[n]);
      SelectedTotalStep(docs, key, amount, selected);
      SelectedTotalStep(updated, key, amount, selected);
    }
  }

  /** Rewriting twice with an idempotent, key-preserving change is rewriting
      once. */
  lemma UpdateTwiceIsUpdateOnce<D>(docs: seq<D>, key: D -> string, ids: seq<string>, change: D -> D)
    requires forall d :: key(change(d)) == key(d) && change(change(d)) == change(d)
    ensures Updated(Updated(docs, key, ids, change), key, ids, change) == Updated(docs, key, ids, change)
  {
  }

  /** Status is not checked, so a reconciled selection may be selected
      again: repeating a successful request succeeds and changes nothing. */
  lemma ReconcileIsIdempotent(invoices: seq<Invoice>, transactions: seq<Transaction>,
                              selectedInvoices: seq<string>, selectedTransactions: seq<string>)
    requires ReconcileOutcome(invoices, transactions, selectedInvoices, selectedTransactions).0 == ReconcileDone
    ensures var (_, invoices', transactions') := ReconcileOutcome(invoices, transactions, selectedInvoices, selectedTransactions);
            ReconcileOutcome(invoices', transactions', selectedInvoices, selectedTransactions) == (ReconcileDone, invoices', transactions')
  {
    UpdateKeepsSelectedTotal(invoices, InvoiceKey, InvoiceAmount, selectedInvoices, MarkInvoiceReconciled, selectedInvoices);
    UpdateKeepsSelectedTotal(transactions, TransactionKey, TransactionAmount, selectedTransactions, MarkTransactionReconciled, selectedTransactions);
    UpdateTwiceIsUpdateOnce(invoices, InvoiceKey, selectedInvoices, MarkInvoiceReconciled);
    UpdateTwiceIsUpdateOnce(transactions, TransactionKey, selectedTransactions, MarkTransactionReconciled);
  }

  /** Two empty selections both total 0, so the request succeeds and
      changes nothing. */
  lemma EmptySelectionSucceeds(invoices: seq<Invoice>, transactions: seq<Transaction>)
    ensures ReconcileOutcome(invoices, transactions, [], []) == (ReconcileDone, invoices, transactions)
  {
    MatchingNothing(invoices, InvoiceKey);
    MatchingNothing(transactions, TransactionKey);
    assert Updated(invoices, InvoiceKey, [], MarkInvoiceReconciled) == invoices;
    assert Updated(transactions, TransactionKey, [], MarkTransactionReconciled) == transactions;
  }

  /** Two invoices of 100 and 50 match one transaction of 150: both invoices
      and the transaction end reconciled. */
  lemma SplitPaymentReconciles(a1: Invoice, a2: Invoice, t1: Transaction)
    requires a1.amount == 100 && a2.amount == 50 && t1.amount == 150
    ensures ReconcileOutcome([a1, a2], [t1], [a1.invoiceId, a2.invoiceId], [t1.transactionId])
            == (ReconcileDone, [MarkInvoiceReconciled(a1), MarkInvoiceReconciled(a2)], [MarkTransactionReconciled(t1)])
  {
    var invoices := [a1, a2];
    var selected := [a1.invoiceId, a2.invoiceId];
    assert invoices[..1] == [a1] && [a1][..0] == [] && [t1][..0] == [];
    SelectedTotalStep(invoices, InvoiceKey, InvoiceAmount, selected);
    SelectedTotalStep([a1], InvoiceKey, InvoiceAmount, selected);
    SelectedTotalStep([t1], TransactionKey, TransactionAmount, [t1.transactionId]);
    assert SelectedTotal(invoices, InvoiceKey, InvoiceAmount, selected) == 150;
    assert Updated(invoices, InvoiceKey, selected, MarkInvoiceReconciled) == [MarkInvoiceReconciled(a1), MarkInvoiceReconciled(a2)];
    assert Updated([t1], TransactionKey, [t1.transactionId], MarkTransactionReconciled) == [MarkTransactionReconciled(t1)];
  }

  /** One metric row of the report's summary sheet. */
  datatype SummaryRow = SummaryRow(metric: string, value: int)

  /** A sheet handed to the spreadsheet writer: its name, its columns, and its
      rows, which are reconciled invoices, reconciled transactions, or the
      summary. */
  datatype Sheet =
    | InvoiceSheet(name: string, columns: seq<Column>, invoices: seq<Invoice>)
    | TransactionSheet(name: string, columns: seq<Column>, transactions: seq<Transaction>)
    | SummarySheet(name: string, columns: seq<Column>, rows: seq<SummaryRow>)

  const SummaryColumns: seq<Column> := [Column("Metric", "metric"), Column("Value", "value")]

  /** The four summary rows over the reconciled records. */
  function SummaryRows(invoices: seq<Invoice>, transactions: seq<Transaction>): (rows: seq<SummaryRow>)
    ensures |rows| == 4
    ensures rows[0] == SummaryRow("Total Reconciled Invoices", |invoices|)
    ensures rows[1] == SummaryRow("Total Amount Invoiced (\U{20B9})", Total(invoices, InvoiceAmount))
    ensures rows[2] == SummaryRow("Total Reconciled Transactions", |transactions|)
    ensures rows[3] == SummaryRow("Total Amount Paid (\U{20B9})", Total(transactions, TransactionAmount))
  {
    [
      SummaryRow("Total Reconciled Invoices", |invoices|),
      SummaryRow("Total Amount Invoiced (\U{20B9})", Total(invoices, InvoiceAmount)),
      SummaryRow("Total Reconciled Transactions", |transactions|),
      SummaryRow("Total Amount Paid (\U{20B9})", Total(transactions, TransactionAmount))
    ]
  }

  /** The sheets of the reconciliation report: the reconciled invoices and
      the reconciled transactions in insertion order, under the upload
      columns, then the summary. */
  function ReconciledReport(invoices: seq<Invoice>, transactions: seq<Transaction>): seq<Sheet>
  {
    var reconciledInvoices := WithStatus(invoices, InvoiceStatus, Reconciled);
    var reconciledTransactions := WithStatus(transactions, TransactionStatus, Reconciled);
    [
      InvoiceSheet("Reconciled Invoices", InvoiceHeaders, reconciledInvoices),
      TransactionSheet("Reconciled Transactions", TransactionHeaders, reconciledTransactions),
      SummarySheet("Summary", SummaryColumns, SummaryRows(reconciledInvoices, reconciledTransactions))
    ]
  }

  /** The report holds exactly the reconciled records, and its summary counts
      them and totals their amounts. */
  lemma ReportCoversReconciledRecords(invoices: seq<Invoice>, transactions: seq<Transaction>)
    ensures var report := ReconciledReport(invoices, transactions);
            |report| == 3 && report[0].InvoiceSheet? && report[1].TransactionSheet? && report[2].SummarySheet? &&
            (forall inv :: inv in report[0].invoices <==> inv in invoices && inv.status == Reconciled) &&
            (forall txn :: txn in report[1].transactions <==> txn in transactions && txn.status == Reconciled) &&
            report[2].rows[0].value == |report[0].invoices| &&
            report[2].rows[1].value == Total(report[0].invoices, InvoiceAmount) &&
            report[2].rows[2].value == |report[1].transactions| &&
            report[2].rows[3].value == Total(report[1].transactions, TransactionAmount)
  {
  }

  /** After a successful reconciliation every stored invoice and transaction
      with a selected id appears in the next report. */
  lemma ReconciledSelectionIsReported(invoices: seq<Invoice>, transactions: seq<Transaction>,
                                      selectedInvoices: seq<string>, selectedTransactions: seq<string>)
    requires ReconcileOutcome(invoices, transactions, selectedInvoices, selectedTransactions).0 == ReconcileDone
    ensures var (_, invoices', transactions') := ReconcileOutcome(invoices, transactions, selectedInvoices, selectedTransactions);
            var report := ReconciledReport(invoices', transactions');
            (forall i :: 0 <= i < |invoices| && invoices[i].invoiceId in selectedInvoices ==> invoices'[i] in report[0].invoices) &&
            (forall i :: 0 <= i < |transactions| && transactions[i].transactionId in selectedTransactions ==> transactions'[i] in report[1].transactions)
  {
    ReconcileMarksExactlyTheSelection(invoices, transactions, selectedInvoices, selectedTransactions);
  }
}
