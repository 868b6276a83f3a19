/** The transaction endpoints: the spreadsheet upload of the "Transaction"
    sheet and the paged list. */
module TransactionController {
  import opened Common
  import opened Models
  import opened Headers
  import opened Helper
  import opened ExcelReader
  import opened Store
  import opened Upload
  import opened Paging

  /** The checks of one transaction row in the order they push their
      messages: transaction id longer than 7, payment method longer than 15
      (its message too says 6), the date, the amount. Reading the length of a
      missing field is a TypeError that aborts. */
  function TransactionRowProblems(rec: Record, parseDate: Value -> Option<int>): Result<seq<Problem>, string>
  {
    if "transactionId" !in rec then Err("transactionId")
    else if "paymentMethod" !in rec then Err("paymentMethod")
    else
      Ok((if LongerThan(rec["transactionId"], 7) then [TooLong("Transaction Id")] else [])
         + (if LongerThan(rec["paymentMethod"], 15) then [TooLong("Payment Method")] else [])
         + (if DateRejected(rec, "paymentDate", parseDate) then [InvalidDate("Payment Date")] else [])
         + (if AmountRejected(rec) then [NotPositiveAmount] else []))
  }

  function TransactionCheck(parseDate: Value -> Option<int>): RowCheck
  {
    rec => TransactionRowProblems(rec, parseDate)
  }

  /** The document inserted for a row: id and method as stored strings, the
      schema's default status. */
  function TransactionOf(rec: Record): (txn: Transaction)
    ensures TransactionKey(txn) == StoredId(rec, "transactionId")
    ensures txn.status == Pending
  {
    Transaction(
      StoredId(rec, "transactionId"),
      StoredId(rec, "paymentMethod"),
      if "paymentDate" in rec then rec["paymentDate"] else Text(""),
      if "amount" in rec && rec["amount"].Number? then rec["amount"].n else 0,
      Pending)
  }

  /** The response and the transaction collection after an upload. */
  function TransactionUploadOutcome(store: seq<Transaction>, file: Option<FileUpload>, parseDate: Value -> Option<int>): (UploadResponse, seq<Transaction>)
  {
    UploadOutcome(store, TransactionKey, file, TransactionHeaders, "Transaction", TransactionCheck(parseDate), "transactionId", TransactionOf)
  }

  /** `uploadTransaction`. `parseDate` stands for `Date.parse`. */
  method UploadTransaction(db: Database, file: Option<FileUpload>, parseDate: Value -> Option<int>) returns (response: UploadResponse)
    requires db.Valid()
    modifies db
    ensures db.Valid()
    ensures (response, db.transactions) == TransactionUploadOutcome(old(db.transactions), file, parseDate)
    ensures db.invoices == old(db.invoices)
  {
    if file.None? {
      return FileRequired;
    }
    var f := file.value;
    var message := ExcelValidator(f.size, f.mimetype);
    if message.Some? {
      return FileRejected(message.value);
    }
    var read := ReadExcelToJson(f.book, TransactionHeaders, "Transaction");
    if read.Err? {
      return ServerError(ReadFailed(read.error));
    }
    var rows := read.value;
    var checked := ValidateRows(rows, TransactionCheck(parseDate));
    if checked.Err? {
      return ServerError(checked.error);
    }
    if |checked.value| > 0 {
      return ValidationFailed(checked.value);
    }
    var existingIds := MapSeq(Matching(db.transactions, TransactionKey, BatchIds(rows, "transactionId")), TransactionKey);
    var unique := UniqueRows(rows, "transactionId", existingIds);
    var failed := db.InsertTransactions(MapSeq(unique, TransactionOf));
    if failed.Some? {
      return ServerError(DuplicateKey(failed.value));
    }
    response := Uploaded(|unique|, |existingIds|, existingIds);
  }

  /** `getTransactions`: the page metadata over the stored transactions. */
  method GetTransactions(db: Database, requested: Option<int>) returns (info: PageInfo)
    ensures info.totalPages == TotalPages(|db.transactions|) && info.perPage == PageSize
    ensures info.currentPage == ClampedPage(requested, |db.transactions|)
    ensures info.skip == (info.currentPage - 1) * PageSize
    ensures |db.transactions| > 0 ==> 1 <= info.currentPage <= info.totalPages && 0 <= info.skip < |db.transactions|
    ensures |db.transactions| == 0 ==> info.currentPage == 0 && info.skip == -10
  {
    info := ListPage(requested, |db.transactions|);
  }

  /** A row with an id and a payment method is checked field by field, and
      each message is pushed exactly when its condition holds: an id (as
      text) longer than 7 characters, a payment method longer than 15, a date
      that does not parse, an amount that is not a positive number. */
  lemma TransactionRowFlags(rec: Record, parseDate: Value -> Option<int>)
    requires "transactionId" in rec && "paymentMethod" in rec
    ensures var checked := TransactionRowProblems(rec, parseDate);
            checked.Ok? && |checked.value| <= 4 &&
            (TooLong("Transaction Id") in checked.value <==> rec["transactionId"].Text? && |rec["transactionId"].text| > 7) &&
            (TooLong("Payment Method") in checked.value <==> rec["paymentMethod"].Text? && |rec["paymentMethod"].text| > 15) &&
            (InvalidDate("Payment Date") in checked.value <==>
               "paymentDate" !in rec || parseDate(rec["paymentDate"]).None? || parseDate(rec["paymentDate"]) == Some(0)) &&
            (NotPositiveAmount in checked.value <==> !("amount" in rec && rec["amount"].Number? && rec["amount"].n > 0))
  {
  }

  /** A row without a transaction id, or with one but without a payment
      method, aborts its check on that field. */
  lemma MissingFieldAbortsTransactionCheck(rec: Record, parseDate: Value -> Option<int>)
    ensures TransactionRowProblems(rec, parseDate).Err? <==> "transactionId" !in rec || "paymentMethod" !in rec
    ensures "transactionId" !in rec ==> TransactionRowProblems(rec, parseDate) == Err("transactionId")
    ensures "transactionId" in rec && "paymentMethod" !in rec ==> TransactionRowProblems(rec, parseDate) == Err("paymentMethod")
  {
  }

  /** A successful transaction upload read the "Transaction" sheet, found no
      problem in any row, and appended exactly the rows whose transaction id
      was not stored, in sheet order, leaving every stored transaction as it
      was; the duplicates reported are the ids of the stored transactions the
      sheet's ids found. */
  lemma SuccessfulTransactionUpload(store: seq<Transaction>, file: Option<FileUpload>, parseDate: Value -> Option<int>)
    requires TransactionUploadOutcome(store, file, parseDate).0.Uploaded?
    ensures file.Some?
    ensures var rows := ReadSheet(file.value.book, TransactionHeaders, "Transaction").value;
            var existingIds := ExistingIds(store, TransactionKey, rows, "transactionId");
            var unique := UniqueRows(rows, "transactionId", existingIds);
            var (response, after) := TransactionUploadOutcome(store, file, parseDate);
            ReadSheet(file.value.book, TransactionHeaders, "Transaction").Ok? &&
            (forall i :: 0 <= i < |rows| ==> TransactionRowProblems(rows[i], parseDate) == Ok([])) &&
            store <= after && after == store + MapSeq(unique, TransactionOf) &&
            response == Uploaded(|unique|, |existingIds|, existingIds)
  {
    UploadedMeansImported(store, TransactionKey, file, TransactionHeaders, "Transaction", TransactionCheck(parseDate), "transactionId", TransactionOf);
    var rows := ReadSheet(file.value.book, TransactionHeaders, "Transaction").value;
    ImportAppendsUnseenRows(store, TransactionKey, rows, "transactionId", TransactionOf);
  }
}
