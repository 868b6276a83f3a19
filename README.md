# PayTrack server: spreadsheet import and reconciliation, in Dafny

This project models the core of the PayTrack server. The server keeps two collections, invoices and transactions, and offers these operations over them:

- **Upload.** An invoice or transaction spreadsheet is uploaded through a guard on file size and MIME type. It is read sheet by sheet against a fixed header-to-field mapping, and every row is checked field by field, with the errors collected over all rows. The rows whose ids are not yet stored are then bulk-inserted.
- **Listing.** The stored records are listed ten to a page, with the requested page clamped into range.
- **Reconciliation.** A reconciliation request selects invoices and transactions by id and marks both sides reconciled only when the two selections total the same amount.
- **Reports.** There is a reconciliation report of three sheets, and a dashboard summary that groups each collection by status.

## Modules

| module | file | what it holds |
|---|---|---|
| `Common` | `common.dfy` | `Option`/`Result`, cell values (text or integer), records, and the decimal text a number is stored as |
| `Headers` | `headers.dfy` | the four header-to-field mappings |
| `Helper` | `helper.dfy` | the byte-to-mebibyte conversion and the two upload guards |
| `ExcelReader` | `excel_reader.dfy` | the sheet reader, as a specification function (`ReadSheet`) and as the looping method (`ReadExcelToJson`) proved equal to it |
| `Models` | `models.dfy` | the invoice and transaction documents and their status values |
| `Store` | `store.dfy` | the persistence operations the controllers use: `find` with `$in`, ordered `insertMany`, `updateMany` and sums |
| `Store` (class `Database`) | `store.dfy` | a class holding both collections, with the unique-id index as its invariant |
| `Upload` | `upload.dfy` | the upload pipeline shared by both controllers: guard, read, row validation, duplicate filter, insert |
| `Paging` | `paging.dfy` | the page clamp of the list endpoints |
| `InvoiceController` | `invoice_controller.dfy` | `uploadInvoice` and `getInvoices` |
| `TransactionController` | `transaction_controller.dfy` | `uploadTransaction` and `getTransactions` |
| `ReconcileController` | `reconcile.dfy` | `reconcileData`, and the data and summary rows of the reconciliation report |
| `ReportController` | `report.dfy` | `reportSummary` |

Each operation that works step by step in the source is a method proved equal to a specification function, and the properties are lemmas about that function. The operations modelled this way are the reader, the validation loop, the inserts and updates, and the controllers themselves. The controller methods change a `Database` object in place.

Three behaviours of the code matter when reading the model:

- **Id length.** The invoice, customer and transaction id checks reject only lengths above 7 (controllers/invoiceController.js:48,53 and controllers/transactionController.js:50). Their messages say "maximum length of 6" (controllers/invoiceController.js:50,55 and controllers/transactionController.js:52). The model applies the tests as written; `SevenCharacterIdsPass` states that seven characters pass. The payment method test rejects lengths above 15, while its message also says 6.
- **Duplicate counts.** `duplicateCount` is the number of stored records the `find` returns (controllers/invoiceController.js:89-92,115), not the number of rows the filter at lines 95-97 drops. With text ids and unique stored ids, inserted plus duplicates equals the number of rows exactly when the batch's ids are pairwise distinct (`CountsCoverBatchIffDistinct`). A batch that repeats a stored id drops both rows but counts that id once (`FoundRepeatIsCountedOnce`, `RepeatedStoredIdIsCountedOnce`). A batch that repeats a new id makes the insert fail part-way (`RepeatedNewIdFailsAfterFirstCopy`).
- **Transaction status.** Reconciliation sets transactions to "Reconciled", a status the transaction schema does not list. The model lets the update through, as the update query does; `ReconcileMarksExactlyTheSelection` states it.

## Model

| member | source | states |
|---|---|---|
| `Common.AsStoredString` | models/invoice.js:5-9 | a text value is stored as its own text, untrimmed (a number becomes its decimal text in a String field) |
| `Common.IntText` | models/invoice.js:5-9 | the stored text of a number reads back as that number (`DecimalValue`); it is non-empty and starts with '-' exactly when the number is negative |
| `Common.NatText` | models/invoice.js:5-9 | the decimal digits of a natural number, no leading zero, whose digit value is that number |
| `Common.IntTextInjective` | models/invoice.js:5-9 | two numbers have the same stored text exactly when they are equal |
| `Common.MapSeq` | controllers/invoiceController.js:92 | `map`: one result per element, in order; used for the found ids (line 92), the batch's documents (line 100) and the keys of a collection |
| `Headers.HeaderNames` | resources/headers.js:1-29 | the header of every mapping column, in order, one per column |
| `Headers.KeyNames` | resources/headers.js:1-29 | the field key of every mapping column, in order, one per column |
| `Headers.UploadMappingsAreUnambiguous` | resources/headers.js:1-13 | both upload mappings have four columns with pairwise-distinct headers and pairwise-distinct keys |
| `Headers.DownloadMappingsExtendUploadMappings` | resources/headers.js:15-29 | each download mapping is its upload mapping followed by the Status column |
| `Headers.DownloadMappingsAreUnambiguous` | resources/headers.js:15-29 | the download mappings' headers and keys are pairwise distinct too |
| `Helper.BytesToMbExceedsOne` | utils/helper.js:26-28 | more than one mebibyte by `bytesToMb` is exactly a byte count above 1048576 |
| `Helper.ExcelValidator` | utils/helper.js:17-24 | the size message exactly when the size is above one mebibyte; the type message exactly when the size passes and the MIME type is not xlsx; nothing exactly when both pass |
| `Helper.ImageValidator` | utils/helper.js:8-15 | the same three iff cases over the image MIME list |
| `Helper.BytesToMb` | utils/helper.js:26-28 | a byte count divided by 2^20; its partner `BytesToMbExceedsOne` states that it exceeds one exactly when the count exceeds 1048576 |
| `ExcelReader.FindSheet` | config/excelToJson.js:7 | no sheet exactly when no sheet of the workbook has the name; a found sheet is in the workbook and has the name |
| `ExcelReader.CellValues` | config/excelToJson.js:22-25 | the header values are exactly the non-empty cells of row 1, at most one per cell |
| `ExcelReader.CellValuesAppend` | config/excelToJson.js:22-25 | the values of a row split in two are the values of its left part followed by those of its right part |
| `ExcelReader.CellValuesOne` | config/excelToJson.js:22-25 | a single cell gives its value when it has one and nothing otherwise; with `CellValuesAppend` this fixes the order and the number of the header values |
| `ExcelReader.DefinedHeaders` | config/excelToJson.js:27 | the defined headers are the mapping's headers, in order |
| `ExcelReader.FirstUnknown` | config/excelToJson.js:28-32 | nothing exactly when every header value is defined; otherwise one of the header values |
| `ExcelReader.MappedKey` | config/excelToJson.js:13-19 | no key exactly when no mapping column has the header; otherwise the key of a column that has it |
| `ExcelReader.MappedKeyOfColumn` | config/excelToJson.js:13-19 | in a mapping with pairwise-distinct headers, a column's header maps to that column's key |
| `ExcelReader.CollectHeaders` | config/excelToJson.js:22-25 | the loop pushes exactly the non-empty cell values of the header row |
| `ExcelReader.CheckHeaders` | config/excelToJson.js:28-32 | the loop stops at the first header value that is not defined |
| `ExcelReader.BuildRecord` | config/excelToJson.js:47-51 | the loop builds the row's record, failing at the first cell under an unknown header |
| `ExcelReader.ExtractRows` | config/excelToJson.js:43-54 | the loop builds one record per non-empty data row, failing at the first failing row |
| `ExcelReader.ReadExcelToJson` | config/excelToJson.js:3-57 | the reader's result equals `ReadSheet`: missing sheet, unknown header, count mismatch, then the records |
| `ExcelReader.FirstUnknownIsFirst` | config/excelToJson.js:28-32 | the first undefined header value, left to right, is the one reported |
| `ExcelReader.NonEmptyRows` | config/excelToJson.js:43-54 | the rows the reader visits are exactly the data rows that hold a value |
| `ExcelReader.NonEmptyRowsAppend` | config/excelToJson.js:43-54 | the rows visited in a sheet split in two are those of its upper part followed by those of its lower part |
| `ExcelReader.NonEmptyRowsOne` | config/excelToJson.js:43-54 | a single row is visited exactly when it holds a value; with `NonEmptyRowsAppend` each such row is visited once, top to bottom |
| `ExcelReader.RowRecordErrorIsUnknownColumn` | config/excelToJson.js:13-19 | the only error while building a record is an unknown column header |
| `ExcelReader.RowsRecordsErrorIsUnknownColumn` | config/excelToJson.js:43-54 | the only error while extracting rows is an unknown column header |
| `ExcelReader.MissingSheetFails` | config/excelToJson.js:7-10 | reading fails with "sheet not found" exactly when the workbook has no sheet of that name |
| `ExcelReader.UnknownHeaderFails` | config/excelToJson.js:27-32 | the first undefined header value makes reading fail with that value |
| `ExcelReader.HeaderCountMismatchFails` | config/excelToJson.js:34-40 | all headers defined but a count differing from the mapping fails with the expected headers |
| `ExcelReader.AcceptedHeaders` | config/excelToJson.js:27-40 | an accepted header row has only defined headers and as many as the mapping; only distinct header values make it a permutation of the mapping's headers |
| `ExcelReader.RepeatedHeaderIsAccepted` | config/excelToJson.js:27-40 | a header row that repeats "Invoice ID" instead of "Customer ID" is accepted, and its record has no customer field |
| `ExcelReader.RowRecordOkWhenAllKnown` | config/excelToJson.js:47-51 | a row's record is built when every non-empty cell lies under a known header |
| `ExcelReader.RecordsFollowRows` | config/excelToJson.js:43-54 | extraction gives one record per non-empty data row, in order, each that row's record |
| `ExcelReader.ReadSheetRecords` | config/excelToJson.js:43-56 | a successful read gives one record per non-empty row from row 2 on, in order; the header row is not emitted |
| `ExcelReader.HeaderOnlySheetIsEmpty` | config/excelToJson.js:43-56 | an accepted header row with nothing below reads as an empty list |
| `ExcelReader.RecordHasCellKey` | config/excelToJson.js:47-50 | every non-empty cell's mapped key is a field of the record |
| `ExcelReader.RecordKeyHasCell` | config/excelToJson.js:47-50 | every field of the record comes from a non-empty cell whose header maps to it |
| `ExcelReader.RecordValues` | config/excelToJson.js:47-50 | each field holds its column's cell value; the later of two cells with the same key wins |
| `ExcelReader.ExtractedRowsBuilt` | config/excelToJson.js:43-54 | successful extraction means every non-empty data row built its record |
| `ExcelReader.CellUnderUnknownHeaderFails` | config/excelToJson.js:47-50 | a non-empty data cell under an unknown header makes the read fail |
| `ExcelReader.RowRecord` | config/excelToJson.js:47-51 | one data row's record, cell by cell under its column's header; its partners: `RowRecordOkWhenAllKnown` (it succeeds when every non-empty cell's header is mapped) and `RowRecordErrorIsUnknownColumn` (its only failure is an unmapped header) |
| `ExcelReader.RowsRecords` | config/excelToJson.js:43-54 | the records of the data rows; its partner `RecordsFollowRows` states that on success there is one record per non-empty row, in row order, each that row's own record, and `RowsRecordsErrorIsUnknownColumn` that its only failure is an unmapped header |
| `ExcelReader.ReadSheet` | config/excelToJson.js:3-57 | `readExcelToJSON` on a workbook already read; its partners: `MissingSheetFails`, `UnknownHeaderFails` and `HeaderCountMismatchFails` give each error case, and `AcceptedHeaders` and `ReadSheetRecords` state what success means |
| `Store.Matching` | controllers/invoiceController.js:89-91 | `find` with `$in`: exactly the stored documents whose id is listed |
| `Store.MatchingAppend` | controllers/invoiceController.js:89-91 | `find` over a collection split in two is the find over its first part followed by the find over its second part |
| `Store.MatchingOne` | controllers/invoiceController.js:89-91 | a single document is found exactly when its id is listed; with `MatchingAppend` the found documents come once each, in stored order |
| `Store.Updated` | controllers/reconcileController.js:42-49 | `updateMany` with `$in`: same length; listed documents changed, the others kept |
| `Store.WithStatus` | controllers/reconcileController.js:69-75 | `find` by status: exactly the stored documents with that status |
| `Store.TotalNonNegative` | controllers/reconcileController.js:22-29 | a sum of non-negative amounts is non-negative |
| `Store.MatchingDependsOnStoredKeys` | controllers/reconcileController.js:14-19 | two id lists that name the same stored ids find the same documents |
| `Store.MatchingNothing` | controllers/reconcileController.js:14-19 | an empty id list finds nothing |
| `Store.MatchingNoneListed` | controllers/invoiceController.js:89-91 | an id list that names no stored id finds nothing |
| `Store.MatchingKeepsUniqueKeys` | models/invoice.js:5-10 | the documents found in a collection with unique ids have unique ids |
| `Store.InsertMany` | controllers/invoiceController.js:100 | the insert loop equals the ordered insert `Inserted` |
| `Store.UpdateMany` | controllers/reconcileController.js:42-49 | the update loop equals `Updated` |
| `Store.InsertedAppendsPrefix` | controllers/invoiceController.js:100 | an ordered insert appends a prefix of the batch, all of it exactly when it reports no failure, and keeps ids unique |
| `Store.InsertedFailsIff` | models/invoice.js:5-10 | an ordered insert fails exactly when the batch repeats an id or names a stored id |
| `Store.InsertingNewKeysSucceedsIff` | controllers/invoiceController.js:100 | when no batch id is stored, the ordered insert succeeds exactly when the batch's ids are pairwise distinct |
| `Store.UniqueKeysIsDistinctKeys` | models/invoice.js:5-10 | a collection has unique ids exactly when its list of ids has no repeats |
| `Store.Database.constructor` | models/invoice.js:1-30 | both collections start empty, with unique ids |
| `Store.Database.InsertInvoices` | controllers/invoiceController.js:100 | the invoices become the ordered insert of the batch; the transactions are unchanged; ids stay unique |
| `Store.Database.InsertTransactions` | controllers/transactionController.js:111 | the transactions become the ordered insert of the batch; the invoices are unchanged; ids stay unique |
| `Store.Database.UpdateInvoices` | controllers/reconcileController.js:42-45 | the selected invoices are rewritten; the transactions are unchanged; ids stay unique |
| `Store.Database.UpdateTransactions` | controllers/reconcileController.js:46-49 | the selected transactions are rewritten; the invoices are unchanged; ids stay unique |
| `Store.Inserted` | controllers/invoiceController.js:100 | an ordered `insertMany` over a collection with a unique index; its partners: `InsertedAppendsPrefix` (the collection grows by a prefix of the batch, all of it exactly when nothing failed, and stays unique) and `InsertedFailsIff` (it fails exactly when batch keys repeat or are already stored) |
| `Upload.Tagged` | controllers/invoiceController.js:49-66 | each problem of a row is tagged with that row number, in order |
| `Upload.CollectErrorsAbortPersists` | controllers/invoiceController.js:47-68 | once a row's check aborts, later rows do not change the outcome |
| `Upload.ValidateRows` | controllers/invoiceController.js:44-68 | the validation loop equals `CollectErrors` |
| `Upload.ErrorsComeFromRows` | controllers/invoiceController.js:47-68 | every reported error names an upload row (index + 2) and a problem that row's check found |
| `Upload.EveryProblemIsReported` | controllers/invoiceController.js:47-68 | every problem of every row is reported with its row; checking does not stop at a bad row |
| `Upload.ErrorsInRowOrder` | controllers/invoiceController.js:47-68 | the errors are listed in row order |
| `Upload.NoErrorsIff` | controllers/invoiceController.js:71-84 | the error list is empty exactly when every row's check finds nothing |
| `Upload.AbortAtFirstMissingField` | controllers/invoiceController.js:47-57 | validation aborts exactly when some row lacks a checked id field, and the abort names the first such row and field |
| `Upload.BatchIds` | controllers/invoiceController.js:86 | the batch's ids, one per row, as they are stored |
| `Upload.UniqueRows` | controllers/invoiceController.js:95-97 | exactly the rows whose id is not among the found ids |
| `Upload.UniqueRowsAppend` | controllers/invoiceController.js:95-97 | filtering a batch split in two keeps the kept rows of its first part followed by those of its second part |
| `Upload.UniqueRowsOne` | controllers/invoiceController.js:95-97 | a single row is kept exactly when its id is not already stored; with `UniqueRowsAppend` the kept rows keep their order and multiplicity |
| `Upload.FileChecksComeFirst` | controllers/invoiceController.js:16-34 | no file gives "File is required", a refused file gives the guard's message, and neither changes the collection |
| `Upload.UploadedMeansImported` | controllers/invoiceController.js:16-117 | a successful upload had a file, a readable sheet and no problem in any row, and its outcome is the import of those rows |
| `Upload.ValidationErrorsBlockImport` | controllers/invoiceController.js:71-84 | any validation error returns the whole list and inserts nothing |
| `Upload.UploadKeepsStoredRecords` | controllers/invoiceController.js:86-117 | an upload never changes or reorders stored records; the collection grows only when the upload succeeds or the insert stops on a duplicate id |
| `Upload.ImportKeepsStoredRecords` | controllers/invoiceController.js:86-117 | an import only appends, and only on success or when the insert stops on a duplicate id |
| `Upload.ImportAppendsUnseenRows` | controllers/invoiceController.js:86-117 | a successful import appends the rows whose id was not found, in order, and reports their number, the number found and the found ids |
| `Upload.ExistingIdsAreStoredBatchIds` | controllers/invoiceController.js:89-92 | every found id is a stored id that the batch names |
| `Upload.FoundIdsAreDistinct` | controllers/invoiceController.js:89-92 | in a collection with unique ids, the found ids are pairwise distinct |
| `Upload.StoredBatchIdIsFound` | controllers/invoiceController.js:89-92 | every stored id that the batch names is found |
| `Upload.BatchIdsCovered` | controllers/invoiceController.js:95-100 | after the insert, every id of the batch is stored |
| `Upload.EveryBatchIdIsStored` | controllers/invoiceController.js:86-100 | after a successful import, every id of the batch is stored |
| `Upload.KeptIdsAreNew` | controllers/invoiceController.js:89-97 | with text ids, every kept row's id is new to the collection |
| `Upload.ImportSucceedsIff` | controllers/invoiceController.js:86-100 | with text ids, the import succeeds exactly when the kept rows' ids are pairwise distinct |
| `Upload.ImportUploadedIff` | controllers/invoiceController.js:100-117 | the import reports success exactly when the insert reports no failure |
| `Upload.UniqueRowsAndStoredRowsPartition` | controllers/invoiceController.js:95-97 | kept rows and dropped rows together are all the rows |
| `Upload.CountStoredIsOverlap` | controllers/invoiceController.js:95-97 | with distinct text ids, the dropped rows are as many as the ids shared with the found ids |
| `Upload.UniqueRowsKeepDistinctIds` | controllers/invoiceController.js:95-97 | filtering a batch of distinct ids keeps its ids distinct |
| `Upload.CountsCoverDistinctBatch` | controllers/invoiceController.js:110-117 | with distinct text ids, the import succeeds and inserted count plus duplicate count is the number of rows |
| `Upload.CountsCoverOnlyDistinctBatch` | controllers/invoiceController.js:86-117 | with text ids and unique stored ids, a successful import whose counts add up to the number of rows had pairwise-distinct ids |
| `Upload.CountsCoverBatchIffDistinct` | controllers/invoiceController.js:86-117 | with text ids and unique stored ids: success with inserted plus duplicates equal to the number of rows, exactly when the batch's ids are pairwise distinct |
| `Upload.FoundRepeatIsCountedOnce` | controllers/invoiceController.js:89-97 | a stored id that two rows share: kept rows plus found ids fall short of the number of rows |
| `Upload.NewRepeatFailsImport` | controllers/invoiceController.js:95-100 | a new id that two rows share: the import does not report success |
| `Upload.KeptRepeatBreaksDistinct` | controllers/invoiceController.js:95-97 | two rows sharing an id that is not found are both kept, so the kept ids repeat |
| `Upload.CountStoredIsCountFound` | controllers/invoiceController.js:95-97 | with text ids, the dropped rows are as many as the batch ids that are among the found ids |
| `Upload.CountFoundRepeat` | controllers/invoiceController.js:89-97 | a found id that occurs twice in the batch is counted twice but is one found id |
| `Upload.AllFoundLeavesNothing` | controllers/invoiceController.js:95-97 | the filter drops every row whose id is found |
| `Upload.FullyStoredBatchInsertsNothing` | controllers/invoiceController.js:86-117 | re-uploading distinct ids that are all stored inserts nothing, keeps the collection, and counts every row as a duplicate |
| `Upload.RepeatedStoredIdIsCountedOnce` | controllers/invoiceController.js:89-117 | two rows with the stored id "A" are both dropped but one duplicate is reported: kept rows plus found ids are one, for two rows |
| `Upload.UniqueRowsWhenNothingFound` | controllers/invoiceController.js:95-97 | with no found ids the filter keeps every row |
| `Upload.RepeatedNewIdFailsAfterFirstCopy` | controllers/invoiceController.js:95-100 | two rows with the same new id: the first is inserted and the second fails the insert on that id |
| `Upload.InsertTwiceFails` | controllers/invoiceController.js:100 | inserting the same new document twice stores one copy and fails on the second with its id |
| `Upload.NumericIdBypassesFilter` | controllers/invoiceController.js:86-100 | a numeric id whose text is stored is found, but the strict `includes` keeps the row and the insert fails on that id |
| `Upload.NumberIdRowIsKept` | controllers/invoiceController.js:95-97 | a row whose id cell is a number is never dropped by the strict `includes` filter |
| `Upload.CollectErrors` | controllers/invoiceController.js:44-68 | the validation loop over the rows; its partners: `ErrorsComeFromRows`, `EveryProblemIsReported`, `ErrorsInRowOrder`, `NoErrorsIff` and `AbortAtFirstMissingField` |
| `Upload.ImportRows` | controllers/invoiceController.js:86-117 | find the stored ids, drop their rows, insert the rest, report the counts; its partners: `ImportAppendsUnseenRows` (a success appends exactly the unseen rows, with those counts), `ImportKeepsStoredRecords` and `ImportSucceedsIff` |
| `Upload.UploadOutcome` | controllers/invoiceController.js:10-117 | the whole upload handler as a response and a new collection; its partners: `FileChecksComeFirst`, `ValidationErrorsBlockImport`, `UploadedMeansImported` and `UploadKeepsStoredRecords` |
| `Paging.TotalPages` | controllers/invoiceController.js:140 | no pages exactly for no records; otherwise the ceiling of records over ten |
| `Paging.ClampedPage` | controllers/invoiceController.js:133-142 | with records, the page lies in 1..pages; with none, page 0; an in-range request is kept, a missing or non-positive one gives 1, one past the end gives the last page |
| `Paging.ClampPage` | controllers/invoiceController.js:133-144 | skip is (page − 1)·10; with records, the page lies in 1..pages and the skip inside the collection; with none, page 0 and skip −10; an in-range request is kept, a missing or non-positive one gives 1, one past the end gives the last page |
| `Paging.ListPage` | controllers/invoiceController.js:133-158 | the page metadata: the page count, the page `ClampedPage` gives for the request, ten per page, and its skip, inside the collection when there are records and −10 when there are none |
| `InvoiceController.InvoiceOf` | controllers/invoiceController.js:95-100 | an inserted invoice has the row's id as stored, status Pending and no outstanding amount |
| `InvoiceController.UploadInvoice` | controllers/invoiceController.js:10-117 | the response and the invoices afterwards are `InvoiceUploadOutcome` over the "Invoice" sheet; the transactions are unchanged; ids stay unique |
| `InvoiceController.GetInvoices` | controllers/invoiceController.js:131-160 | the page metadata over the stored invoices: the current page is `ClampedPage` of the request and the invoice count, with its skip |
| `InvoiceController.InvoiceRowFlags` | controllers/invoiceController.js:47-67 | each of the four messages is pushed exactly when its condition holds: id longer than 7, customer id longer than 7, a date that parses to NaN or 0, an amount that is not a positive number |
| `InvoiceController.SevenCharacterIdsPass` | controllers/invoiceController.js:48-57 | ids of seven characters draw no length message |
| `InvoiceController.MissingIdAbortsInvoiceCheck` | controllers/invoiceController.js:48-57 | a row's check aborts exactly when it lacks the invoice id or the customer id, naming the first missing one |
| `InvoiceController.SuccessfulInvoiceUpload` | controllers/invoiceController.js:37-117 | a successful upload read the sheet, every row passed, the unseen rows were appended in order, the counts and duplicates are as reported, and every id of the sheet is stored |
| `InvoiceController.InvoiceRowProblems` | controllers/invoiceController.js:47-67 | one row's invoice checks; its partners `InvoiceRowFlags` (each message exactly when its condition holds) and `MissingIdAbortsInvoiceCheck` (a missing id aborts) |
| `InvoiceController.InvoiceUploadOutcome` | controllers/invoiceController.js:10-117 | `uploadInvoice` on the "Invoice" sheet with the invoice headers; its partner `SuccessfulInvoiceUpload` states what a success read, checked and appended |
| `TransactionController.TransactionOf` | controllers/transactionController.js:105-111 | an inserted transaction has the row's id as stored and status Pending |
| `TransactionController.UploadTransaction` | controllers/transactionController.js:13-128 | the response and the transactions afterwards are `TransactionUploadOutcome` over the "Transaction" sheet; the invoices are unchanged; ids stay unique |
| `TransactionController.GetTransactions` | controllers/transactionController.js:142-160 | the page metadata over the stored transactions: the current page is `ClampedPage` of the request and the transaction count, with its skip |
| `TransactionController.TransactionRowFlags` | controllers/transactionController.js:49-69 | each message is pushed exactly when its condition holds: id longer than 7, payment method longer than 15, a date that parses to NaN or 0, an amount that is not a positive number |
| `TransactionController.MissingFieldAbortsTransactionCheck` | controllers/transactionController.js:50-59 | a row's check aborts exactly when it lacks the transaction id or the payment method, naming the first missing one |
| `TransactionController.SuccessfulTransactionUpload` | controllers/transactionController.js:39-128 | a successful upload read the sheet, every row passed, the unseen rows were appended in order, and the counts and duplicates are as reported |
| `TransactionController.TransactionRowProblems` | controllers/transactionController.js:49-69 | one row's transaction checks; its partners `TransactionRowFlags` (each message exactly when its condition holds) and `MissingFieldAbortsTransactionCheck` (a missing field aborts) |
| `TransactionController.TransactionUploadOutcome` | controllers/transactionController.js:13-128 | `uploadTransaction` on the "Transaction" sheet with the transaction headers; its partner `SuccessfulTransactionUpload` states what a success read, checked and appended |
| `ReconcileController.MarkInvoiceReconciled` | controllers/reconcileController.js:44 | the invoice becomes Reconciled with outstanding amount 0, every other field kept |
| `ReconcileController.MarkTransactionReconciled` | controllers/reconcileController.js:48 | the transaction becomes Reconciled, every other field kept |
| `ReconcileController.ReconcileData` | controllers/reconcileController.js:9-63 | the response and both collections afterwards are `ReconcileOutcome`; ids stay unique |
| `ReconcileController.SelectedTotalIgnoresAbsentAndRepeatedIds` | controllers/reconcileController.js:14-29 | ids that are not stored, and ids listed twice, do not change a selection's total |
| `ReconcileController.MismatchChangesNothing` | controllers/reconcileController.js:33-38 | the request fails exactly when the two totals differ, and then neither collection changes |
| `ReconcileController.ReconcileMarksExactlyTheSelection` | controllers/reconcileController.js:41-50 | on success every selected invoice is Reconciled with 0 outstanding, every selected transaction Reconciled (outside its schema's statuses), other fields and unselected records unchanged |
| `ReconcileController.SelectedTotalStep` | controllers/reconcileController.js:22-29 | a selection's total grows by the last record's amount exactly when it is selected |
| `ReconcileController.UpdateKeepsSelectedTotal` | controllers/reconcileController.js:22-49 | the status update keeps every selection's total |
| `ReconcileController.UpdateTwiceIsUpdateOnce` | controllers/reconcileController.js:42-49 | applying an idempotent, id-keeping update twice equals applying it once |
| `ReconcileController.ReconcileIsIdempotent` | controllers/reconcileController.js:14-50 | repeating a successful request succeeds again and changes nothing more |
| `ReconcileController.EmptySelectionSucceeds` | controllers/reconcileController.js:14-50 | two empty selections total 0 and succeed without changing anything |
| `ReconcileController.SplitPaymentReconciles` | controllers/reconcileController.js:14-50 | invoices of 100 and 50 match one transaction of 150: both invoices and the transaction become Reconciled |
| `ReconcileController.SummaryRows` | controllers/reconcileController.js:77-95 | the four summary rows: reconciled invoice count, amount invoiced, reconciled transaction count, amount paid |
| `ReconcileController.ReportCoversReconciledRecords` | controllers/reconcileController.js:69-116 | the report's sheets hold exactly the reconciled records, and its summary counts them and totals their amounts |
| `ReconcileController.ReconciledSelectionIsReported` | controllers/reconcileController.js:41-75 | after a successful reconciliation every selected stored record appears in the next report |
| `ReconcileController.SelectedTotal` | controllers/reconcileController.js:14-29 | the sum of the amounts of the stored records whose id is selected; its partners `SelectedTotalIgnoresAbsentAndRepeatedIds` and `UpdateKeepsSelectedTotal` |
| `ReconcileController.ReconcileOutcome` | controllers/reconcileController.js:9-63 | `reconcileData` as a response and both new collections; its partners `MismatchChangesNothing` (fails exactly when the totals differ, changing nothing) and `ReconcileMarksExactlyTheSelection` (a success marks exactly the selected records) |
| `ReconcileController.ReconciledReport` | controllers/reconcileController.js:69-116 | the three sheets of the reconciliation report; its partner `ReportCoversReconciledRecords` states that they hold exactly the reconciled records and their count and total |
| `ReportController.AddToBuckets` | controllers/reportController.js:6-13 | adding a record leaves at least one bucket |
| `ReportController.GroupByStatus` | controllers/reportController.js:6-13 | there are no buckets exactly when there are no records |
| `ReportController.AddToBucketsCounts` | controllers/reportController.js:7-12 | adding a record adds one to the total count and to its status's count, and its amount to the total amount and to its status's amount |
| `ReportController.GroupByStatusTotals` | controllers/reportController.js:6-33 | the bucket sums are the number of records, the count per status, the amount total and the amount per status |
| `ReportController.SummaryIsDirectCount` | controllers/reportController.js:6-35 | a collection's summary is its size, its Pending and Reconciled counts, its amount total and its Pending and Reconciled amounts |
| `ReportController.TwoStatusesWithinAll` | controllers/reportController.js:14-33 | Pending plus Reconciled records are at most all records; with non-negative amounts, so are their amounts |
| `ReportController.PendingAndReconciledWithinTotal` | controllers/reportController.js:14-33 | in a summary, pending plus reconciled is at most total, for the counts and, with non-negative amounts, for the amounts |
| `ReportController.EmptyCollectionReportsZeros` | controllers/reportController.js:72-79 | an empty collection reports 0 for all six totals, and the other collection's summary is unaffected |
| `ReportController.WithStatusCounts` | controllers/reconcileController.js:69-87 | the number and the amount total of the records found by status are the direct count and amount |
| `ReportController.SummaryAgreesWithReconciledReport` | controllers/reportController.js:68-87 | the dashboard's reconciled counts and amounts equal the reconciliation report's summary values |
| `ReportController.Summarize` | controllers/reportController.js:6-35 | one collection's aggregate with zero defaults; its partner `SummaryIsDirectCount` equates it with direct counts and sums over the records |
| `ReportController.ReportSummary` | controllers/reportController.js:68-87 | the `data` of the summary response, each collection on its own; its partner `SummaryAgreesWithReconciledReport` ties its reconciled figures to the report's summary sheet |

## Left out

- HTTP handling, authentication and the request and response framing are left out. Responses are datatypes: the status codes are their constructors and the message texts are constants.
- Mail is left out. `sendEmail` is never allowed to change an upload response, so the validation and success emails are not modelled. The `email` taken from the user is not used.
- Staging the uploaded file, the uuid file name and deleting the file on every exit path are left out. The uploaded workbook is given to the reader directly.
- Writing the report spreadsheet is left out. `config/jsonToExcel.js` is not part of this model; the report is the list of sheets handed to it.
- `getPendingInvoices`, `getPendingTransactions`, `downloadInvoicesFile`, `downloadTransactionsFile` and the download of the reconciliation report are left out. They are queries plus a file write and an email, and they hold none of the core logic. The data and summary of the reconciliation report are modelled.
- The list query's sort, skip and limit are left out. Only the page metadata and the skip value are modelled. What the database does with the skip of −10 that an empty collection produces is not modelled.
- Concurrency is left out. The two updates of a reconciliation run one after the other. Their atomicity, and races between concurrent uploads of the same ids, are not modelled.
- Amounts are integers. JavaScript's floating-point sums and comparisons are not modelled.
- Dates, rich text and formula cells are not modelled. A cell value is text or an integer.
- `Date.parse` is a parameter. A date field is flagged when the parameter gives NaN (`None`) or 0.
- String lengths count characters, not UTF-16 code units.
- Mongoose schema validation on insert is left out: required fields, `maxLength` and the status enumeration. Only the unique-id index is modelled, as the `Database` invariant. The schemas' `trim` option is a setter rather than a validator; its effect is described on the `Common.AsStoredString` line below.
- The invoice update's `outstandingAmount: 0` is kept as issued, although strict mode would drop a field the schema does not declare.
- The `.select` projection of the report's records is left out. The report sheets hold whole documents.
- Each collection is an insertion-ordered sequence. Insertion order stands for both the `createdAt` order and the natural order of `find`.
- Upload error texts are left out. A validation error is a `RowError` value, `RowErrorText` renders it, and the 500 responses carry a `Failure` instead of the error's text.
- `Common.AsStoredString`: a non-integer number is not modelled; its stored text would be JavaScript's shortest decimal form. Nor is the `trim` setter on the invoice schema's `invoiceId` and `customerId` (models/invoice.js:8,14): Mongoose trims those values when a document is stored and also in each value of the `$in` query at controllers/invoiceController.js:89-91, while the model keeps the text as is. With "A1" stored, a row whose invoice id is " A1 " therefore finds the "A1" document in the source, passes the strict `includes` at line 96, and fails the insert with a duplicate key (a 500), the same bypass that `NumericIdBypassesFilter` shows for a numeric id; the model finds nothing and inserts the row untrimmed. `transactionId` has no `trim`, and on the Number `amount` fields the option has no effect.
- `Common.IntText`: writes plain decimal digits for every integer. JavaScript's `String(n)` switches to exponent notation from 10^21 upwards, and numbers above 2^53 are inexact, so those are not modelled.
