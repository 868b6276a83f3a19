/** The two stored entities and their status values. */
module Models {
  import opened Common

  /** Every status a stored record can hold. The invoice schema allows the
      first four and the transaction schema only `Pending` and `Completed`;
      reconciliation nevertheless writes `Reconciled` on transactions, and
      bulk updates do not check the schema's list. */
  datatype Status = Pending | Reconciled | PartiallyPaid | Unpaid | Completed

  predicate InInvoiceSchema(s: Status)
  {
    s == Pending || s == Reconciled || s == PartiallyPaid || s == Unpaid
  }

  predicate InTransactionSchema(s: Status)
  {
    s == Pending || s == Completed
  }

  /** A stored invoice. `outstandingAmount` is not a schema field; it is
      absent until reconciliation sets it. */
  datatype Invoice = Invoice(
    invoiceId: string,
    customerId: string,
    invoiceDate: Value,
    amount: int,
    status: Status,
    outstandingAmount: Option<int>)

  /** A stored transaction. */
  datatype Transaction = Transaction(
    transactionId: string,
    paymentMethod: string,
    paymentDate: Value,
    amount: int,
    status: Status)

  /** The unique key of each collection. */
  function InvoiceKey(inv: Invoice): string { inv.invoiceId }

  function TransactionKey(txn: Transaction): string { txn.transactionId }

  function InvoiceAmount(inv: Invoice): int { inv.amount }

  function TransactionAmount(txn: Transaction): int { txn.amount }

  function InvoiceStatus(inv: Invoice): Status { inv.status }

  function TransactionStatus(txn: Transaction): Status { txn.status }
}
