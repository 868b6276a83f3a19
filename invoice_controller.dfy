/** The invoice endpoints: the spreadsheet upload of the "Invoice" sheet and
    the paged list. */
module InvoiceController {
  import opened Common
  import opened Models
  import opened Headers
  import opened Helper
  import opened ExcelReader
  import opened Store
  import opened Upload
  import opened Paging

  /** The checks of one invoice row in the order they push their messages:
      invoice id longer than 7, customer id longer than 7, the date, the
      amount. Reading the length of a missing id is a TypeError that aborts. */
  function InvoiceRowProblems(rec: Record, parseDate: Value -> Option<int>): Result<seq<Problem>, string>
  {
    if "invoiceId" !in rec then Err("invoiceId")
    else if "customerId" !in rec then Err("customerId")
    else
      Ok((if LongerThan(rec["invoiceId"], 7) then [TooLong("Invoice Id")] else [])
         + (if LongerThan(rec["customerId"], 7) then [TooLong("Customer Id")] else [])
         + (if DateRejected(rec, "invoiceDate", parseDate) then [InvalidDate("Invoice Date")] else [])
         + (if AmountRejected(rec) then [NotPositiveAmount] else []))
  }

  function InvoiceCheck(parseDate: Value -> Option<int>): RowCheck
  {
    rec => InvoiceRowProblems(rec, parseDate)
  }

  /** The document inserted for a row: ids as stored strings, the schema's
      default status, no outstanding amount. */
  function InvoiceOf(rec: Record): (inv: Invoice)
    ensures InvoiceKey(inv) == StoredId(rec, "invoiceId")
    ensures inv.status == Pending && inv.outstandingAmount == None
  {
    Invoice(
      StoredId(rec, "invoiceId"),
      StoredId(rec, "customerId"),
      if "invoiceDate" in rec then rec["invoiceDate"] else Text(""),
      if "amount" in rec && rec["amount"].Number? then rec["amount"].n else 0,
      Pending,
      None)
  }

  /** The response and the invoice collection after an upload. */
  function InvoiceUploadOutcome(store: seq<Invoice>, file: Option<FileUpload>, parseDate: Value -> Option<int>): (UploadResponse, seq<Invoice>)
  {
    UploadOutcome(store, InvoiceKey, file, InvoiceHeaders, "Invoice", InvoiceCheck(parseDate), "invoiceId", InvoiceOf)
  }

  /** `uploadInvoice`. `parseDate` stands for `Date.parse`. */
  method UploadInvoice(db: Database, file: Option<FileUpload>, parseDate: Value -> Option<int>) returns (response: UploadResponse)
    requires db.Valid()
    modifies db
    ensures db.Valid()
    ensures (response, db.invoices) == InvoiceUploadOutcome(old(db.invoices), file, parseDate)
    ensures db.transactions == old(db.transactions)
  {
    if file.None? {
      return FileRequired;
    }
    var f := file.value;
    var message := ExcelValidator(f.size, f.mimetype);
    if message.Some? {
      return FileRejected(message.value);
    }
    var read := ReadExcelToJson(f.book, InvoiceHeaders, "Invoice");
    if read.Err? {
      return ServerError(ReadFailed(read.error));
    }
    var rows := read.value;
    var checked := ValidateRows(rows, InvoiceCheck(parseDate));
    if checked.Err? {
      return ServerError(checked.error);
    }
    if |checked.value| > 0 {
      return ValidationFailed(checked.value);
    }
    var existingIds := MapSeq(Matching(db.invoices, InvoiceKey, BatchIds(rows, "invoiceId")), InvoiceKey);
    var unique := UniqueRows(rows, "invoiceId", existingIds);
    var failed := db.InsertInvoices(MapSeq(unique, InvoiceOf));
    if failed.Some? {
      return ServerError(DuplicateKey(failed.value));
    }
    response := Uploaded(|unique|, |existingIds|, existingIds);
  }

  /** `getInvoices`: the page metadata over the stored invoices. */
  method GetInvoices(db: Database, requested: Option<int>) returns (info: PageInfo)
    ensures info.totalPages == TotalPages(|db.invoices|) && info.perPage == PageSize
    ensures info.currentPage == ClampedPage(requested, |db.invoices|)
    ensures info.skip == (info.currentPage - 1) * PageSize
    ensures |db.invoices| > 0 ==> 1 <= info.currentPage <= info.totalPages && 0 <= info.skip < |db.invoices|
    ensures |db.invoices| == 0 ==> info.currentPage == 0 && info.skip == -10
  {
    info := ListPage(requested, |db.invoices|);
  }

  /** A row with both ids is checked field by field, and each message is
      pushed exactly when its condition holds: an id (as text) longer than
      seven characters, a date that does not parse, an amount that is not a
      positive number. */
  lemma InvoiceRowFlags(rec: Record, parseDate: Value -> Option<int>)
    requires "invoiceId" in rec && "customerId" in rec
    ensures var checked := InvoiceRowProblems(rec, parseDate);
            checked.Ok? && |checked.value| <= 4 &&
            (TooLong("Invoice Id") in checked.value <==> rec["invoiceId"].Text? && |rec["invoiceId"].text| > 7) &&
            (TooLong("Customer Id") in checked.value <==> rec["customerId"].Text? && |rec["customerId"].text| > 7) &&
            (InvalidDate("Invoice Date") in checked.value <==>
               "invoiceDate" !in rec || parseDate(rec["invoiceDate"]).None? || parseDate(rec["invoiceDate"]) == Some(0)) &&
            (NotPositiveAmount in checked.value <==> !("amount" in rec && rec["amount"].Number? && rec["amount"].n > 0))
  {
  }

  /** An id of seven characters passes although the message speaks of a
      maximum of six. */
  lemma SevenCharacterIdsPass(rec: Record, parseDate: Value -> Option<int>)
    requires "invoiceId" in rec && "customerId" in rec
    requires rec["invoiceId"].Text? && |rec["invoiceId"].text| == 7
    requires rec["customerId"].Text? && |rec["customerId"].text| == 7
    ensures InvoiceRowProblems(rec, parseDate).Ok?
    ensures TooLong("Invoice Id") !in InvoiceRowProblems(rec, parseDate).value
    ensures TooLong("Customer Id") !in InvoiceRowProblems(rec, parseDate).value
  {
    InvoiceRowFlags(rec, parseDate);
  }

  /** A row without an invoice id, or with one but without a customer id,
      aborts its check on that field. */
  lemma MissingIdAbortsInvoiceCheck(rec: Record, parseDate: Value -> Option<int>)
    ensures InvoiceRowProblems(rec, parseDate).Err? <==> "invoiceId" !in rec || "customerId" !in rec
    ensures "invoiceId" !in rec ==> InvoiceRowProblems(rec, parseDate) == Err("invoiceId")
    ensures "invoiceId" in rec && "customerId" !in rec ==> InvoiceRowProblems(rec, parseDate) == Err("customerId")
  {
  }

  /** A successful invoice upload read the "Invoice" sheet, found no problem
      in any row, and appended exactly the rows whose invoice id was not
      stored, in sheet order; every invoice id of the sheet is stored
      afterwards, and the duplicates reported are the found ids. */
  lemma SuccessfulInvoiceUpload(store: seq<Invoice>, file: Option<FileUpload>, parseDate: Value -> Option<int>)
    requires InvoiceUploadOutcome(store, file, parseDate).0.Uploaded?
    ensures file.Some?
    ensures var rows := ReadSheet(file.value.book, InvoiceHeaders, "Invoice").value;
            var existingIds := ExistingIds(store, InvoiceKey, rows, "invoiceId");
            var unique := UniqueRows(rows, "invoiceId", existingIds);
            var (response, after) := InvoiceUploadOutcome(store, file, parseDate);
            ReadSheet(file.value.book, InvoiceHeaders, "Invoice").Ok? &&
            (forall i :: 0 <= i < |rows| ==> InvoiceRowProblems(rows[i], parseDate) == Ok([])) &&
            after == store + MapSeq(unique, InvoiceOf) &&
            response == Uploaded(|unique|, |existingIds|, existingIds) &&
            (forall i :: 0 <= i < |rows| ==> StoredId(rows[i], "invoiceId") in MapSeq(after, InvoiceKey))
  {
    UploadedMeansImported(store, InvoiceKey, file, InvoiceHeaders, "Invoice", InvoiceCheck(parseDate), "invoiceId", InvoiceOf);
    var rows := ReadSheet(file.value.book, InvoiceHeaders, "Invoice").value;
    ImportAppendsUnseenRows(store, InvoiceKey, rows, "invoiceId", InvoiceOf);
    EveryBatchIdIsStored(store, InvoiceKey, rows, "invoiceId", InvoiceOf);
  }
}
