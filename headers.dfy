/** The four header-to-field mappings: the reader validates and parses uploads
    against the first two, and the exports write their columns from all four. */
module Headers {
  import opened Common

  /** One column of a sheet: the header text shown in row 1 and the record
      field the column's cells belong to. */
  datatype Column = Column(header: string, key: string)

  function HeaderNames(columns: seq<Column>): (hs: seq<string>)
    ensures |hs| == |columns|
    ensures forall i :: 0 <= i < |columns| ==> hs[i] == columns[i].header
  {
    if |columns| == 0 then [] else HeaderNames(columns[..|columns| - 1]) + [columns[|columns| - 1].header]
  }

  function KeyNames(columns: seq<Column>): (ks: seq<string>)
    ensures |ks| == |columns|
    ensures forall i :: 0 <= i < |columns| ==> ks[i] == columns[i].key
  {
    if |columns| == 0 then [] else KeyNames(columns[..|columns| - 1]) + [columns[|columns| - 1].key]
  }

  const InvoiceHeaders: seq<Column> := [
    Column("Invoice ID", "invoiceId"),
    Column("Customer ID", "customerId"),
    Column("Invoice Date", "invoiceDate"),
    Column("Amount", "amount")
  ]

  const TransactionHeaders: seq<Column> := [
    Column("Transaction ID", "transactionId"),
    Column("Payment Method", "paymentMethod"),
    Column("Payment Date", "paymentDate"),
    Column("Amount", "amount")
  ]

  const InvDownloadHeaders: seq<Column> := [
    Column("Invoice ID", "invoiceId"),
    Column("Customer ID", "customerId"),
    Column("Invoice Date", "invoiceDate"),
    Column("Amount", "amount"),
    Column("Status", "status")
  ]

  const TransDownloadHeaders: seq<Column> := [
    Column("Transaction ID", "transactionId"),
    Column("Payment Method", "paymentMethod"),
    Column("Payment Date", "paymentDate"),
    Column("Amount", "amount"),
    Column("Status", "status")
  ]

  const StatusColumn: Column := Column("Status", "status")

  /** Both upload mappings have four columns with pairwise-distinct headers, so
      the reader's first-match lookup by header is unambiguous, and
      pairwise-distinct keys, so no two columns write the same field. */
  lemma UploadMappingsAreUnambiguous()
    ensures |InvoiceHeaders| == 4 && |TransactionHeaders| == 4
    ensures Distinct(HeaderNames(InvoiceHeaders)) && Distinct(KeyNames(InvoiceHeaders))
    ensures Distinct(HeaderNames(TransactionHeaders)) && Distinct(KeyNames(TransactionHeaders))
  {
    InvoiceMappingIsUnambiguous();
    TransactionMappingIsUnambiguous();
  }

  lemma InvoiceMappingIsUnambiguous()
    ensures |InvoiceHeaders| == 4
    ensures Distinct(HeaderNames(InvoiceHeaders)) && Distinct(KeyNames(InvoiceHeaders))
  {
    assert HeaderNames(InvoiceHeaders) == ["Invoice ID", "Customer ID", "Invoice Date", "Amount"];
    assert KeyNames(InvoiceHeaders) == ["invoiceId", "customerId", "invoiceDate", "amount"];
  }

  lemma TransactionMappingIsUnambiguous()
    ensures |TransactionHeaders| == 4
    ensures Distinct(HeaderNames(TransactionHeaders)) && Distinct(KeyNames(TransactionHeaders))
  {
    assert HeaderNames(TransactionHeaders) == ["Transaction ID", "Payment Method", "Payment Date", "Amount"];
    assert KeyNames(TransactionHeaders) == ["transactionId", "paymentMethod", "paymentDate", "amount"];
  }

  /** Each download mapping is its upload mapping followed by the one status
      column. */
  lemma DownloadMappingsExtendUploadMappings()
    ensures InvDownloadHeaders == InvoiceHeaders + [StatusColumn]
    ensures TransDownloadHeaders == TransactionHeaders + [StatusColumn]
  {
  }

  /** The status column's header and key are new to each upload mapping, so
      the download mappings keep headers and keys pairwise distinct. */
  lemma DownloadMappingsAreUnambiguous()
    ensures Distinct(HeaderNames(InvDownloadHeaders)) && Distinct(KeyNames(InvDownloadHeaders))
    ensures Distinct(HeaderNames(TransDownloadHeaders)) && Distinct(KeyNames(TransDownloadHeaders))
  {
    UploadMappingsAreUnambiguous();
    DownloadMappingsExtendUploadMappings();
    assert HeaderNames(InvDownloadHeaders) == HeaderNames(InvoiceHeaders) + ["Status"];
    assert KeyNames(InvDownloadHeaders) == KeyNames(InvoiceHeaders) + ["status"];
    assert HeaderNames(TransDownloadHeaders) == HeaderNames(TransactionHeaders) + ["Status"];
    assert KeyNames(TransDownloadHeaders) == KeyNames(TransactionHeaders) + ["status"];
  }
}
