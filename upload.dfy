/** The spreadsheet upload that both the invoice and the transaction
    controllers run: the file guard, the sheet read, per-row field checks
    whose errors are collected over all rows, and the duplicate filter in
    front of the ordered insert. Each controller supplies its columns, sheet
    name, row check, id field and document constructor. */
module Upload {
  import opened Common
  import opened Headers
  import opened Helper
  import opened ExcelReader
  import opened Store

  /** The uploaded file as the request carries it. */
  datatype FileUpload = FileUpload(size: nat, mimetype: string, book: Workbook)

  /** One field problem a row check reports, with the column name its
      message names. */
  datatype Problem = TooLong(column: string) | InvalidDate(column: string) | NotPositiveAmount

  /** The message text of a problem. Both length messages say 6 whatever
      limit the check applies. */
  function ProblemText(p: Problem): string
  {
    match p
    case TooLong(column) => "'" + column + "' exceeds maximum length of 6."
    case InvalidDate(column) => "'" + column + "' is not a valid date."
    case NotPositiveAmount => "'Amount' must be a positive number."
  }

  /** A problem tagged with the sheet row it was found in. */
  datatype RowError = RowError(row: nat, problem: Problem)

  function RowErrorText(e: RowError): string
  {
    "Row " + NatText(e.row) + ": " + ProblemText(e.problem)
  }

  /** Why an upload ends with status 500. `FieldMissing` is the TypeError
      raised by reading the length of a field the record does not have. */
  datatype Failure =
    | ReadFailed(readError: ReadError)
    | FieldMissing(row: nat, field: string)
    | DuplicateKey(key: string)

  /** The response of an upload. `ValidationFailed` carries the full error
      list (also mailed to the user); `Uploaded` the counts and the ids that
      were already stored. */
  datatype UploadResponse =
    | FileRequired
    | FileRejected(message: string)
    | ValidationFailed(errors: seq<RowError>)
    | Uploaded(insertedCount: nat, duplicateCount: nat, duplicates: seq<string>)
    | ServerError(failure: Failure)

  /** `value.length > limit`: only text has a length; the length of a number
      is `undefined`, and `undefined > limit` is false. */
  predicate LongerThan(v: Value, limit: nat)
  {
    v.Text? && |v.text| > limit
  }

  /** `!Date.parse(value)`. `parseDate` gives the epoch milliseconds of a
      value, or `None` where `Date.parse` gives NaN; a missing field parses as
      NaN, and a date exactly at the epoch is rejected too, since 0 is falsy. */
  predicate DateRejected(rec: Record, field: string, parseDate: Value -> Option<int>)
  {
    field !in rec || parseDate(rec[field]) == None || parseDate(rec[field]) == Some(0)
  }

  /** `typeof amount !== "number" || amount <= 0`. */
  predicate AmountRejected(rec: Record)
  {
    !("amount" in rec && rec["amount"].Number? && rec["amount"].n > 0)
  }

  /** A row check: the problems of one record in the order they are pushed,
      or the field whose missing value aborts the check. */
  type RowCheck = Record -> Result<seq<Problem>, string>

  function Tagged(row: nat, problems: seq<Problem>): (errors: seq<RowError>)
    ensures |errors| == |problems|
    ensures forall i :: 0 <= i < |problems| ==> errors[i] == RowError(row, problems[i])
  {
    if |problems| == 0 then []
    else Tagged(row, problems[..|problems| - 1]) + [RowError(row, problems[|problems| - 1])]
  }

  /** The error list the `forEach` over the records builds: the problems of
      every record in order, each tagged with its sheet row (index + 2, since
      the header is row 1). A record whose check aborts ends the upload. */
  function CollectErrors(rows: seq<Record>, check: RowCheck): Result<seq<RowError>, Failure>
  {
    if |rows| == 0 then Ok([])
    else
      var n := |rows| - 1;
      match CollectErrors(rows[..n], check)
      case Err(failure) => Err(failure)
      case Ok(errors) =>
        match check(rows[n])
        case Err(field) => Err(FieldMissing(n + 2, field))
        case Ok(problems) => Ok(errors + Tagged(n + 2, problems))
  }

  lemma {:induction false} CollectErrorsAbortPersists(rows: seq<Record>, check: RowCheck, k: nat)
    requires k <= |rows| && CollectErrors(rows[..k], check).Err?
    ensures CollectErrors(rows, check) == CollectErrors(rows[..k], check)
    decreases |rows| - k
  {
    if k < |rows| {
      assert rows[..k + 1][..k] == rows[..k];
      CollectErrorsAbortPersists(rows, check, k + 1);
    } else {
      assert rows[..k] == rows;
    }
  }

  /** The validation loop. */
  method ValidateRows(rows: seq<Record>, check: RowCheck) returns (result: Result<seq<RowError>, Failure>)
    ensures result == CollectErrors(rows, check)
  {
    var errors: seq<RowError> := [];
    var i := 0;
    while i < |rows|
      invariant 0 <= i <= |rows|
      invariant CollectErrors(rows[..i], check) == Ok(errors)
    {
      assert rows[..i + 1][..i] == rows[..i];
      var checked := check(rows[i]);
      if checked.Err? {
        CollectErrorsAbortPersists(rows, check, i + 1);
        return Err(FieldMissing(i + 2, checked.error));
      }
      errors := errors + Tagged(i + 2, checked.value);
      i := i + 1;
    }
    assert rows[..i] == rows;
    result := Ok(errors);
  }

  /** Every reported error names a sheet row of the upload and a problem
      that row's check found. */
  lemma {:induction false} ErrorsComeFromRows(rows: seq<Record>, check: RowCheck)
    requires CollectErrors(rows, check).Ok?
    ensures forall e :: e in CollectErrors(rows, check).value ==>
              2 <= e.row < |rows| + 2 && check(rows[e.row - 2]).Ok? && e.problem in check(rows[e.row - 2]).value
  {
    if |rows| > 0 {
      var n := |rows| - 1;
      ErrorsComeFromRows(rows[..n], check);
      forall e | e in CollectErrors(rows, check).value
        ensures 2 <= e.row < |rows| + 2 && check(rows[e.row - 2]).Ok? && e.problem in check(rows[e.row - 2]).value
      {
        if e in CollectErrors(rows[..n], check).value {
          assert rows[..n][e.row - 2] == rows[e.row - 2];
        } else {
          var tagged := Tagged(n + 2, check(rows[n]).value);
          var j :| 0 <= j < |tagged| && tagged[j] == e;
        }
      }
    }
  }

  /** Every problem of every row is reported, tagged with that row: the
      checks do not stop at the first bad row. */
  lemma {:induction false} EveryProblemIsReported(rows: seq<Record>, check: RowCheck, i: nat, p: Problem)
    requires CollectErrors(rows, check).Ok?
    requires i < |rows| && check(rows[i]).Ok? && p in check(rows[i]).value
    ensures RowError(i + 2, p) in CollectErrors(rows, check).value
  {
    var n := |rows| - 1;
    if i < n {
      assert rows[..n][i] == rows[i];
      EveryProblemIsReported(rows[..n], check, i, p);
    } else {
      var problems := check(rows[n]).value;
      var j :| 0 <= j < |problems| && problems[j] == p;
      assert Tagged(n + 2, problems)[j] == RowError(i + 2, p);
    }
  }

  /** Errors are listed in row order. */
  lemma {:induction false} ErrorsInRowOrder(rows: seq<Record>, check: RowCheck)
    requires CollectErrors(rows, check).Ok?
    ensures var errors := CollectErrors(rows, check).value;
            forall a, b :: 0 <= a <= b < |errors| ==> errors[a].row <= errors[b].row
  {
    if |rows| > 0 {
      var n := |rows| - 1;
      ErrorsInRowOrder(rows[..n], check);
      ErrorsComeFromRows(rows[..n], check);
      var prior := CollectErrors(rows[..n], check).value;
      var errors := CollectErrors(rows, check).value;
      forall a, b | 0 <= a <= b < |errors|
        ensures errors[a].row <= errors[b].row
      {
        if b >= |prior| {
          assert errors[b].row == n + 2;
          if a < |prior| {
            assert prior[a] in prior;
          }
        }
      }
    }
  }

  /** The upload passes validation exactly when every row's check finds
      nothing. */
  lemma {:induction false} NoErrorsIff(rows: seq<Record>, check: RowCheck)
    ensures CollectErrors(rows, check) == Ok([]) <==> forall i :: 0 <= i < |rows| ==> check(rows[i]) == Ok([])
  {
    if |rows| > 0 {
      var n := |rows| - 1;
      NoErrorsIff(rows[..n], check);
      forall i | 0 <= i < n
        ensures rows[..n][i] == rows[i]
      {
      }
      if CollectErrors(rows, check) == Ok([]) {
        var prior := CollectErrors(rows[..n], check);
        assert prior.Ok? && check(rows[n]).Ok?;
        assert |prior.value + Tagged(n + 2, check(rows[n]).value)| == 0;
      }
      if forall i :: 0 <= i < |rows| ==> check(rows[i]) == Ok([]) {
        assert check(rows[n]) == Ok([]);
        assert Tagged(n + 2, []) == [];
      }
    }
  }

  /** A check aborts the upload exactly when some row's check aborts, and the
      failure names the first such row (as sheet row index + 2) and its
      missing field. */
  lemma {:induction false} AbortAtFirstMissingField(rows: seq<Record>, check: RowCheck)
    ensures CollectErrors(rows, check).Err? <==> exists i :: 0 <= i < |rows| && check(rows[i]).Err?
    ensures CollectErrors(rows, check).Err? ==>
              exists i :: 0 <= i < |rows| && check(rows[i]).Err? && (forall j :: 0 <= j < i ==> check(rows[j]).Ok?) &&
                CollectErrors(rows, check) == Err(FieldMissing(i + 2, check(rows[i]).error))
  {
    if |rows| > 0 {
      var n := |rows| - 1;
      AbortAtFirstMissingField(rows[..n], check);
      forall i | 0 <= i < n
        ensures rows[..n][i] == rows[i]
      {
      }
    }
  }

  /** The text a record's id has once stored in a string field; a missing id
      (which validation never lets through) is empty. */
  function StoredId(rec: Record, field: string): string
  {
    if field in rec then AsStoredString(rec[field]) else ""
  }

  /** The `map` of the batch to its ids, as `find` compares them. */
  function BatchIds(rows: seq<Record>, field: string): (ids: seq<string>)
    ensures |ids| == |rows|
    ensures forall i :: 0 <= i < |rows| ==> ids[i] == StoredId(rows[i], field)
  {
    if |rows| == 0 then [] else BatchIds(rows[..|rows| - 1], field) + [StoredId(rows[|rows| - 1], field)]
  }

  /** `existingIds.includes(row[field])`, a strict comparison: only a text id
      can equal one of the stored string ids. */
  predicate AlreadyStored(existingIds: seq<string>, rec: Record, field: string)
  {
    field in rec && rec[field].Text? && rec[field].text in existingIds
  }

  /** The `filter` that drops the rows whose id is already stored, keeping the
      order of the rest. */
  function UniqueRows(rows: seq<Record>, field: string, existingIds: seq<string>): (unique: seq<Record>)
    ensures |unique| <= |rows|
    ensures forall r :: r in unique <==> r in rows && !AlreadyStored(existingIds, r, field)
  {
    if |rows| == 0 then []
    else
      var last := rows[|rows| - 1];
      UniqueRows(rows[..|rows| - 1], field, existingIds) + (if AlreadyStored(existingIds, last, field) then [] else [last])
  }

  /** Order and multiplicity: filtering a split batch keeps the kept rows of
      its first part followed by those of its second part, and a single row
      is kept exactly when its id is not already stored. */
  lemma {:induction false} UniqueRowsAppend(xs: seq<Record>, ys: seq<Record>, field: string, existingIds: seq<string>)
    ensures UniqueRows(xs + ys, field, existingIds) == UniqueRows(xs, field, existingIds) + UniqueRows(ys, field, existingIds)
    decreases |ys|
  {
    if |ys| == 0 {
      assert xs + ys == xs;
    } else {
      var n := |ys| - 1;
      LastOfAppend(xs, ys);
      UniqueRowsLast(xs + ys, field, existingIds);
      UniqueRowsLast(ys, field, existingIds);
      UniqueRowsAppend(xs, ys[..n], field, existingIds);
      Regroup(UniqueRows(xs + ys, field, existingIds), UniqueRows(xs + ys[..n], field, existingIds),
        UniqueRows(xs, field, existingIds), UniqueRows(ys[..n], field, existingIds),
        if AlreadyStored(existingIds, ys[n], field) then [] else [ys[n]], UniqueRows(ys, field, existingIds));
    }
  }

  /** One step of the filter: the kept rows of a non-empty batch are those of
      all but its last row, followed by the last row when it is kept. */
  lemma UniqueRowsLast(rows: seq<Record>, field: string, existingIds: seq<string>)
    requires |rows| > 0
    ensures UniqueRows(rows, field, existingIds)
      == UniqueRows(rows[..|rows| - 1], field, existingIds) + (if AlreadyStored(existingIds, rows[|rows| - 1], field) then [] else [rows[|rows| - 1]])
  {
  }

  lemma UniqueRowsOne(row: Record, field: string, existingIds: seq<string>)
    ensures UniqueRows([row], field, existingIds) == if AlreadyStored(existingIds, row, field) then [] else [row]
  {
    assert [row][..0] == [];
  }

  /** The import once validation found nothing: the stored records whose id
      is in the batch are found, the rows whose id is among theirs are
      dropped, the rest are inserted in order, and the response reports the
      number of kept rows and the found ids. */
  function ImportRows<D(!new)>(store: seq<D>, key: D -> string, rows: seq<Record>, field: string, toDoc: Record -> D): (UploadResponse, seq<D>)
  {
    var existingIds := ExistingIds(store, key, rows, field);
    var unique := UniqueRows(rows, field, existingIds);
    var inserted := Inserted(store, key, MapSeq(unique, toDoc));
    if inserted.1.Some? then (ServerError(DuplicateKey(inserted.1.value)), inserted.0)
    else (Uploaded(|unique|, |existingIds|, existingIds), inserted.0)
  }

  /** The ids of the stored records the batch's ids find. */
  function ExistingIds<D(!new)>(store: seq<D>, key: D -> string, rows: seq<Record>, field: string): seq<string>
  {
    MapSeq(Matching(store, key, BatchIds(rows, field)), key)
  }

  /** A whole upload: the response and the collection afterwards. */
  function UploadOutcome<D(!new)>(store: seq<D>, key: D -> string, file: Option<FileUpload>, columns: seq<Column>,
                                  sheetName: string, check: RowCheck, field: string, toDoc: Record -> D): (UploadResponse, seq<D>)
  {
    match file
    case None => (FileRequired, store)
    case Some(f) =>
      match ExcelValidator(f.size, f.mimetype)
      case Some(message) => (FileRejected(message), store)
      case None =>
        match ReadSheet(f.book, columns, sheetName)
        case Err(e) => (ServerError(ReadFailed(e)), store)
        case Ok(rows) =>
          match CollectErrors(rows, check)
          case Err(failure) => (ServerError(failure), store)
          case Ok(errors) =>
            if |errors| > 0 then (ValidationFailed(errors), store)
            else ImportRows(store, key, rows, field, toDoc)
  }

  /** A successful upload had a file whose sheet was read and whose every row
      passed its check; its outcome is the import of those rows. */
  lemma UploadedMeansImported<D(!new)>(store: seq<D>, key: D -> string, file: Option<FileUpload>, columns: seq<Column>,
                                       sheetName: string, check: RowCheck, field: string, toDoc: Record -> D)
    requires UploadOutcome(store, key, file, columns, sheetName, check, field, toDoc).0.Uploaded?
    ensures file.Some? && ReadSheet(file.value.book, columns, sheetName).Ok?
    ensures var rows := ReadSheet(file.value.book, columns, sheetName).value;
            (forall i :: 0 <= i < |rows| ==> check(rows[i]) == Ok([])) &&
            UploadOutcome(store, key, file, columns, sheetName, check, field, toDoc) == ImportRows(store, key, rows, field, toDoc)
  {
    var rows := ReadSheet(file.value.book, columns, sheetName).value;
    NoErrorsIff(rows, check);
  }

  /** The file checks come before anything is parsed: no file gives
      "File is required", a file the guard refuses gives the guard's message,
      and neither touches the collection. */
  lemma FileChecksComeFirst<D(!new)>(store: seq<D>, key: D -> string, file: Option<FileUpload>, columns: seq<Column>,
                                     sheetName: string, check: RowCheck, field: string, toDoc: Record -> D)
    ensures var (response, after) := UploadOutcome(store, key, file, columns, sheetName, check, field, toDoc);
            (response == FileRequired <==> file.None?) &&
            (forall m :: response == FileRejected(m) <==> file.Some? && ExcelValidator(file.value.size, file.value.mimetype) == Some(m)) &&
            (response.FileRequired? || response.FileRejected? ==> after == store)
  {
  }

  /** Any validation error blocks the whole import: the response carries the
      full error list and the collection is unchanged. */
  lemma ValidationErrorsBlockImport<D(!new)>(store: seq<D>, key: D -> string, f: FileUpload, columns: seq<Column>,
                                             sheetName: string, check: RowCheck, field: string, toDoc: Record -> D, rows: seq<Record>)
    requires ExcelValidator(f.size, f.mimetype) == None
    requires ReadSheet(f.book, columns, sheetName) == Ok(rows)
    requires CollectErrors(rows, check).Ok? && |CollectErrors(rows, check).value| > 0
    ensures UploadOutcome(store, key, Some(f), columns, sheetName, check, field, toDoc) == (ValidationFailed(CollectErrors(rows, check).value), store)
  {
  }

  /** An upload never changes or reorders a stored record: the collection
      afterwards extends the one before, and it is longer only after an
      import (one that succeeded, or one the insert stopped part-way). */
  lemma UploadKeepsStoredRecords<D(!new)>(store: seq<D>, key: D -> string, file: Option<FileUpload>, columns: seq<Column>,
                                          sheetName: string, check: RowCheck, field: string, toDoc: Record -> D)
    ensures var (response, after) := UploadOutcome(store, key, file, columns, sheetName, check, field, toDoc);
            store <= after &&
            (after != store ==> response.Uploaded? || (response.ServerError? && response.failure.DuplicateKey?))
  {
    match file
    case None =>
    case Some(f) =>
      match ExcelValidator(f.size, f.mimetype)
      case Some(_) =>
      case None =>
        match ReadSheet(f.book, columns, sheetName)
        case Err(_) =>
        case Ok(rows) =>
          match CollectErrors(rows, check)
          case Err(_) =>
          case Ok(errors) =>
            if |errors| == 0 {
              ImportKeepsStoredRecords(store, key, rows, field, toDoc);
            }
  }

  /** An import only appends, and it appends only when it succeeds or when
      the insert stops part-way on a duplicate key. */
  lemma ImportKeepsStoredRecords<D(!new)>(store: seq<D>, key: D -> string, rows: seq<Record>, field: string, toDoc: Record -> D)
    ensures var (response, after) := ImportRows(store, key, rows, field, toDoc);
            store <= after &&
            (after != store ==> response.Uploaded? || (response.ServerError? && response.failure.DuplicateKey?))
  {
    var unique := UniqueRows(rows, field, ExistingIds(store, key, rows, field));
    InsertedAppendsPrefix(store, key, MapSeq(unique, toDoc));
  }

  /** After a successful import the collection is the old one followed by
      the rows whose id was not found, in upload order; the counts are the
      number of those rows and the number of stored records found, and the
      duplicates are the found ids. */
  lemma ImportAppendsUnseenRows<D(!new)>(store: seq<D>, key: D -> string, rows: seq<Record>, field: string, toDoc: Record -> D)
    requires ImportRows(store, key, rows, field, toDoc).0.Uploaded?
    ensures var existingIds := ExistingIds(store, key, rows, field);
            var unique := UniqueRows(rows, field, existingIds);
            ImportRows(store, key, rows, field, toDoc) == (Uploaded(|unique|, |existingIds|, existingIds), store + MapSeq(unique, toDoc))
  {
    var existingIds := ExistingIds(store, key, rows, field);
    var unique := UniqueRows(rows, field, existingIds);
    InsertedAppendsPrefix(store, key, MapSeq(unique, toDoc));
    assert MapSeq(unique, toDoc)[..|MapSeq(unique, toDoc)|] == MapSeq(unique, toDoc);
  }

  /** The found ids are stored ids that the batch names. */
  lemma ExistingIdsAreStoredBatchIds<D(!new)>(store: seq<D>, key: D -> string, rows: seq<Record>, field: string)
    ensures forall x :: x in ExistingIds(store, key, rows, field) ==> x in MapSeq(store, key) && x in BatchIds(rows, field)
  {
    var found := Matching(store, key, BatchIds(rows, field));
    forall x | x in ExistingIds(store, key, rows, field)
      ensures x in MapSeq(store, key) && x in BatchIds(rows, field)
    {
      var j :| 0 <= j < |found| && MapSeq(found, key)[j] == x;
      assert found[j] in found;
      var k :| 0 <= k < |store| && store[k] == found[j];
      assert MapSeq(store, key)[k] == x;
    }
  }

  /** A stored id that the batch names is found. */
  lemma StoredBatchIdIsFound<D(!new)>(store: seq<D>, key: D -> string, rows: seq<Record>, field: string, x: string)
    requires x in MapSeq(store, key) && x in BatchIds(rows, field)
    ensures x in ExistingIds(store, key, rows, field)
  {
    var found := Matching(store, key, BatchIds(rows, field));
    var k :| 0 <= k < |store| && MapSeq(store, key)[k] == x;
    assert store[k] in found;
    var j :| 0 <= j < |found| && found[j] == store[k];
    assert MapSeq(found, key)[j] == x;
  }

  lemma BatchIdsCovered<D>(store: seq<D>, key: D -> string, rows: seq<Record>, field: string, toDoc: Record -> D, existingIds: seq<string>)
    requires forall r :: key(toDoc(r)) == StoredId(r, field)
    requires forall x :: x in existingIds ==> x in MapSeq(store, key)
    ensures forall i :: 0 <= i < |rows| ==> StoredId(rows[i], field) in MapSeq(store + MapSeq(UniqueRows(rows, field, existingIds), toDoc), key)
  {
    var unique := UniqueRows(rows, field, existingIds);
    var docs := MapSeq(unique, toDoc);
    var keys := MapSeq(store + docs, key);
    forall i | 0 <= i < |rows|
      ensures StoredId(rows[i], field) in keys
    {
      var r := rows[i];
      if AlreadyStored(existingIds, r, field) {
        var k :| 0 <= k < |store| && MapSeq(store, key)[k] == r[field].text;
        assert (store + docs)[k] == store[k];
        assert keys[k] == StoredId(r, field);
      } else {
        assert r in unique;
        var j :| 0 <= j < |unique| && unique[j] == r;
        assert (store + docs)[|store| + j] == docs[j];
        assert keys[|store| + j] == StoredId(r, field);
      }
    }
  }

  /** After a successful import every id of the batch is stored: either it
      was found and its row dropped, or its row was inserted. */
  lemma EveryBatchIdIsStored<D(!new)>(store: seq<D>, key: D -> string, rows: seq<Record>, field: string, toDoc: Record -> D)
    requires forall r :: key(toDoc(r)) == StoredId(r, field)
    requires ImportRows(store, key, rows, field, toDoc).0.Uploaded?
    ensures forall i :: 0 <= i < |rows| ==> StoredId(rows[i], field) in MapSeq(ImportRows(store, key, rows, field, toDoc).1, key)
  {
    ImportAppendsUnseenRows(store, key, rows, field, toDoc);
    ExistingIdsAreStoredBatchIds(store, key, rows, field);
    BatchIdsCovered(store, key, rows, field, toDoc, ExistingIds(store, key, rows, field));
  }

  /** A kept row with a text id has an id that no stored record has. */
  lemma KeptIdsAreNew<D(!new)>(store: seq<D>, key: D -> string, rows: seq<Record>, field: string)
    requires forall i :: 0 <= i < |rows| ==> field in rows[i] && rows[i][field].Text?
    ensures forall r :: r in UniqueRows(rows, field, ExistingIds(store, key, rows, field)) ==> StoredId(r, field) !in MapSeq(store, key)
  {
    var existingIds := ExistingIds(store, key, rows, field);
    var unique := UniqueRows(rows, field, existingIds);
    forall r | r in unique
      ensures StoredId(r, field) !in MapSeq(store, key)
    {
      var m :| 0 <= m < |rows| && rows[m] == r;
      assert BatchIds(rows, field)[m] == StoredId(r, field);
      if StoredId(r, field) in MapSeq(store, key) {
        StoredBatchIdIsFound(store, key, rows, field, StoredId(r, field));
        assert false;
      }
    }
  }

  /** The import reports success exactly when the insert reports no failure. */
  lemma ImportUploadedIff<D(!new)>(store: seq<D>, key: D -> string, rows: seq<Record>, field: string, toDoc: Record -> D)
    ensures var unique := UniqueRows(rows, field, ExistingIds(store, key, rows, field));
            ImportRows(store, key, rows, field, toDoc).0.Uploaded? <==> Inserted(store, key, MapSeq(unique, toDoc)).1.None?
  {
  }

  /** The keys of the documents built from rows are the rows' stored ids. */
  lemma DocsKeys<D>(rows: seq<Record>, field: string, key: D -> string, toDoc: Record -> D)
    requires forall r :: key(toDoc(r)) == StoredId(r, field)
    ensures MapSeq(MapSeq(rows, toDoc), key) == BatchIds(rows, field)
  {
    var keys := MapSeq(MapSeq(rows, toDoc), key);
    var ids := BatchIds(rows, field);
    forall i | 0 <= i < |rows|
      ensures keys[i] == ids[i]
    {
      assert MapSeq(rows, toDoc)[i] == toDoc(rows[i]);
    }
  }

  /** When every id of the batch is text, the kept rows' ids are new to the
      collection, so the import succeeds exactly when no two kept rows share
      an id. */
  lemma ImportSucceedsIff<D(!new)>(store: seq<D>, key: D -> string, rows: seq<Record>, field: string, toDoc: Record -> D)
    requires forall r :: key(toDoc(r)) == StoredId(r, field)
    requires forall i :: 0 <= i < |rows| ==> field in rows[i] && rows[i][field].Text?
    ensures var existingIds := ExistingIds(store, key, rows, field);
            ImportRows(store, key, rows, field, toDoc).0.Uploaded? <==> Distinct(BatchIds(UniqueRows(rows, field, existingIds), field))
  {
    var existingIds := ExistingIds(store, key, rows, field);
    var unique := UniqueRows(rows, field, existingIds);
    var docs := MapSeq(unique, toDoc);
    ImportUploadedIff(store, key, rows, field, toDoc);
    KeptDocsAreNew(store, key, rows, field, toDoc);
    InsertingNewKeysSucceedsIff(store, key, docs);
    DocsKeys(unique, field, key, toDoc);
  }

  /** The documents built from the kept rows have keys no stored record has. */
  lemma KeptDocsAreNew<D(!new)>(store: seq<D>, key: D -> string, rows: seq<Record>, field: string, toDoc: Record -> D)
    requires forall r :: key(toDoc(r)) == StoredId(r, field)
    requires forall i :: 0 <= i < |rows| ==> field in rows[i] && rows[i][field].Text?
    ensures var docs := MapSeq(UniqueRows(rows, field, ExistingIds(store, key, rows, field)), toDoc);
            forall i :: 0 <= i < |docs| ==> key(docs[i]) !in MapSeq(store, key)
  {
    var unique := UniqueRows(rows, field, ExistingIds(store, key, rows, field));
    var docs := MapSeq(unique, toDoc);
    KeptIdsAreNew(store, key, rows, field);
    forall i | 0 <= i < |docs|
      ensures key(docs[i]) !in MapSeq(store, key)
    {
      assert docs[i] == toDoc(unique[i]);
      assert unique[i] in unique;
    }
  }

  /** The number of rows whose id is among `existingIds`. */
  function CountStored(rows: seq<Record>, field: string, existingIds: seq<string>): nat
  {
    if |rows| == 0 then 0
    else CountStored(rows[..|rows| - 1], field, existingIds) + (if AlreadyStored(existingIds, rows[|rows| - 1], field) then 1 else 0)
  }

  ghost function IdSet(ids: seq<string>): set<string>
  {
    set x | x in ids
  }

  lemma {:induction false} UniqueRowsAndStoredRowsPartition(rows: seq<Record>, field: string, existingIds: seq<string>)
    ensures |UniqueRows(rows, field, existingIds)| + CountStored(rows, field, existingIds) == |rows|
  {
    if |rows| > 0 {
      UniqueRowsAndStoredRowsPartition(rows[..|rows| - 1], field, existingIds);
    }
  }

  lemma {:induction false} CountStoredIsOverlap(rows: seq<Record>, field: string, existingIds: seq<string>)
    requires forall i :: 0 <= i < |rows| ==> field in rows[i] && rows[i][field].Text?
    requires Distinct(BatchIds(rows, field))
    ensures CountStored(rows, field, existingIds) == |IdSet(BatchIds(rows, field)) * IdSet(existingIds)|
  {
    var ids := BatchIds(rows, field);
    if |rows| == 0 {
      assert IdSet(ids) == {};
    } else {
      var n := |rows| - 1;
      var init := BatchIds(rows[..n], field);
      var x := StoredId(rows[n], field);
      CountStoredIsOverlap(rows[..n], field, existingIds);
      LastIdIsNew(ids);
      assert ids[..n] == init;
      IdSetAppend(init, x);
      assert ids == init + [x];
      OverlapStep(IdSet(init), IdSet(existingIds), x);
    }
  }

  /** The last of pairwise distinct ids is not among the ones before it. */
  lemma LastIdIsNew(ids: seq<string>)
    requires Distinct(ids) && |ids| > 0
    ensures ids[|ids| - 1] !in IdSet(ids[..|ids| - 1])
  {
    var n := |ids| - 1;
    forall j | 0 <= j < n
      ensures ids[..n][j] != ids[n]
    {
      assert ids[j] != ids[n];
    }
  }

  lemma IdSetAppend(ids: seq<string>, x: string)
    ensures IdSet(ids + [x]) == IdSet(ids) + {x}
  {
  }

  /** Adding a new element to a set grows its overlap with another set by one
      exactly when the other set holds it. */
  lemma OverlapStep(a: set<string>, b: set<string>, x: string)
    requires x !in a
    ensures |(a + {x}) * b| == |a * b| + (if x in b then 1 else 0)
  {
    if x in b {
      assert (a + {x}) * b == a * b + {x};
    } else {
      assert (a + {x}) * b == a * b;
    }
  }

  lemma {:induction false} DistinctIdSetSize(ids: seq<string>)
    requires Distinct(ids)
    ensures |IdSet(ids)| == |ids|
  {
    if |ids| > 0 {
      var init := ids[..|ids| - 1];
      DistinctIdSetSize(init);
      assert IdSet(ids) == IdSet(init) + {ids[|ids| - 1]};
      assert ids[|ids| - 1] !in IdSet(init);
    }
  }

  lemma DistinctAppend<T>(xs: seq<T>, x: T)
    requires Distinct(xs) && forall i :: 0 <= i < |xs| ==> xs[i] != x
    ensures Distinct(xs + [x])
  {
  }

  lemma {:induction false} UniqueRowsKeepDistinctIds(rows: seq<Record>, field: string, existingIds: seq<string>)
    requires Distinct(BatchIds(rows, field))
    ensures Distinct(BatchIds(UniqueRows(rows, field, existingIds), field))
  {
    if |rows| > 0 {
      var n := |rows| - 1;
      var ids := BatchIds(rows, field);
      assert BatchIds(rows[..n], field) == ids[..n];
      UniqueRowsKeepDistinctIds(rows[..n], field, existingIds);
      var prior := UniqueRows(rows[..n], field, existingIds);
      var priorIds := BatchIds(prior, field);
      forall i | 0 <= i < |prior|
        ensures priorIds[i] != StoredId(rows[n], field)
      {
        assert prior[i] in rows[..n];
        var j :| 0 <= j < n && rows[..n][j] == prior[i];
        assert ids[j] == StoredId(prior[i], field);
        assert ids[n] == StoredId(rows[n], field);
      }
      if !AlreadyStored(existingIds, rows[n], field) {
        var kept := prior + [rows[n]];
        assert kept[..|kept| - 1] == prior;
        DistinctAppend(priorIds, StoredId(rows[n], field));
      }
    }
  }

  /** When the batch ids are distinct text, the import succeeds and every row
      is counted once: as inserted or as a duplicate. */
  lemma CountsCoverDistinctBatch<D(!new)>(store: seq<D>, key: D -> string, rows: seq<Record>, field: string, toDoc: Record -> D)
    requires UniqueKeys(store, key)
    requires forall r :: key(toDoc(r)) == StoredId(r, field)
    requires forall i :: 0 <= i < |rows| ==> field in rows[i] && rows[i][field].Text?
    requires Distinct(BatchIds(rows, field))
    ensures var response := ImportRows(store, key, rows, field, toDoc).0;
            response.Uploaded? && response.insertedCount + response.duplicateCount == |rows|
  {
    var ids := BatchIds(rows, field);
    var existingIds := ExistingIds(store, key, rows, field);
    var unique := UniqueRows(rows, field, existingIds);
    UniqueRowsKeepDistinctIds(rows, field, existingIds);
    ImportSucceedsIff(store, key, rows, field, toDoc);
    ImportAppendsUnseenRows(store, key, rows, field, toDoc);
    assert ImportRows(store, key, rows, field, toDoc).0 == Uploaded(|unique|, |existingIds|, existingIds);
    UniqueRowsAndStoredRowsPartition(rows, field, existingIds);
    CountStoredIsOverlap(rows, field, existingIds);
    FoundIdsAreDistinct(store, key, ids);
    DistinctIdSetSize(existingIds);
    ExistingIdsAreStoredBatchIds(store, key, rows, field);
    assert IdSet(ids) * IdSet(existingIds) == IdSet(existingIds);
  }

  /** Conversely, with text ids and unique stored keys, a response whose
      counts cover every row comes only from a batch of distinct ids: a
      repeated id that is stored is counted once among the found ids while
      both of its rows are dropped, and a repeated id that is not stored keeps
      both of its rows, so the insert fails. */
  lemma CountsCoverOnlyDistinctBatch<D(!new)>(store: seq<D>, key: D -> string, rows: seq<Record>, field: string, toDoc: Record -> D)
    requires UniqueKeys(store, key)
    requires forall r :: key(toDoc(r)) == StoredId(r, field)
    requires forall i :: 0 <= i < |rows| ==> field in rows[i] && rows[i][field].Text?
    ensures var response := ImportRows(store, key, rows, field, toDoc).0;
            response.Uploaded? && response.insertedCount + response.duplicateCount == |rows| ==> Distinct(BatchIds(rows, field))
  {
    var ids := BatchIds(rows, field);
    if !Distinct(ids) {
      var i, j :| 0 <= i < j < |ids| && ids[i] == ids[j];
      if ids[j] in ExistingIds(store, key, rows, field) {
        FoundRepeatIsCountedOnce(store, key, rows, field, i, j);
        UploadedCounts(store, key, rows, field, toDoc);
      } else {
        NewRepeatFailsImport(store, key, rows, field, toDoc, i, j);
      }
    }
  }

  /** A successful import reports the kept rows as inserted and the found
      ids as duplicates. */
  lemma UploadedCounts<D(!new)>(store: seq<D>, key: D -> string, rows: seq<Record>, field: string, toDoc: Record -> D)
    ensures var response := ImportRows(store, key, rows, field, toDoc).0;
            var existingIds := ExistingIds(store, key, rows, field);
            response.Uploaded? ==> response.insertedCount == |UniqueRows(rows, field, existingIds)| && response.duplicateCount == |existingIds|
  {
  }

  /** A stored id that two rows share drops both rows but is found once, so
      the kept rows and the found ids together fall short of the batch. */
  lemma FoundRepeatIsCountedOnce<D(!new)>(store: seq<D>, key: D -> string, rows: seq<Record>, field: string, i: nat, j: nat)
    requires UniqueKeys(store, key)
    requires forall k :: 0 <= k < |rows| ==> field in rows[k] && rows[k][field].Text?
    requires i < j < |rows|
    requires BatchIds(rows, field)[i] == BatchIds(rows, field)[j] && BatchIds(rows, field)[j] in ExistingIds(store, key, rows, field)
    ensures var existingIds := ExistingIds(store, key, rows, field);
            |UniqueRows(rows, field, existingIds)| + |existingIds| < |rows|
  {
    var ids := BatchIds(rows, field);
    var existingIds := ExistingIds(store, key, rows, field);
    CountStoredIsCountFound(rows, field, existingIds);
    CountFoundRepeat(ids, existingIds, i, j);
    UniqueRowsAndStoredRowsPartition(rows, field, existingIds);
    FoundIdsAreDistinct(store, key, ids);
    ExistingIdsAreStoredBatchIds(store, key, rows, field);
    OverlapOfFoundIds(ids, existingIds);
  }

  /** When the found ids are distinct and all in the batch, the overlap of the
      batch with them has one element per found id. */
  lemma OverlapOfFoundIds(ids: seq<string>, existingIds: seq<string>)
    requires Distinct(existingIds)
    requires forall x :: x in existingIds ==> x in ids
    ensures |IdSet(ids) * IdSet(existingIds)| == |existingIds|
  {
    DistinctIdSetSize(existingIds);
    assert IdSet(ids) * IdSet(existingIds) == IdSet(existingIds);
  }

  /** A new id that two rows share keeps both rows, so the insert of the kept
      rows meets a duplicate key and the import does not report success. */
  lemma NewRepeatFailsImport<D(!new)>(store: seq<D>, key: D -> string, rows: seq<Record>, field: string, toDoc: Record -> D, i: nat, j: nat)
    requires forall r :: key(toDoc(r)) == StoredId(r, field)
    requires forall k :: 0 <= k < |rows| ==> field in rows[k] && rows[k][field].Text?
    requires i < j < |rows|
    requires BatchIds(rows, field)[i] == BatchIds(rows, field)[j] && BatchIds(rows, field)[j] !in ExistingIds(store, key, rows, field)
    ensures !ImportRows(store, key, rows, field, toDoc).0.Uploaded?
  {
    var existingIds := ExistingIds(store, key, rows, field);
    AlreadyStoredIsFoundId(existingIds, rows[i], field);
    AlreadyStoredIsFoundId(existingIds, rows[j], field);
    KeptRepeatBreaksDistinct(rows, field, existingIds, i, j);
    ImportSucceedsIff(store, key, rows, field, toDoc);
  }

  /** Both directions together: with text ids and unique stored keys, the
      import succeeds with every row counted once exactly when the batch ids
      are pairwise distinct. */
  lemma CountsCoverBatchIffDistinct<D(!new)>(store: seq<D>, key: D -> string, rows: seq<Record>, field: string, toDoc: Record -> D)
    requires UniqueKeys(store, key)
    requires forall r :: key(toDoc(r)) == StoredId(r, field)
    requires forall i :: 0 <= i < |rows| ==> field in rows[i] && rows[i][field].Text?
    ensures var response := ImportRows(store, key, rows, field, toDoc).0;
            response.Uploaded? && response.insertedCount + response.duplicateCount == |rows| <==> Distinct(BatchIds(rows, field))
  {
    CountsCoverOnlyDistinctBatch(store, key, rows, field, toDoc);
    if Distinct(BatchIds(rows, field)) {
      CountsCoverDistinctBatch(store, key, rows, field, toDoc);
    }
  }

  /** The number of ids in `ids` that are among `existingIds`. */
  function CountFound(ids: seq<string>, existingIds: seq<string>): nat
  {
    if |ids| == 0 then 0
    else CountFound(ids[..|ids| - 1], existingIds) + (if ids[|ids| - 1] in existingIds then 1 else 0)
  }

  /** With text ids, the rows counted as already stored are the batch ids
      that are found. */
  lemma {:induction false} CountStoredIsCountFound(rows: seq<Record>, field: string, existingIds: seq<string>)
    requires forall i :: 0 <= i < |rows| ==> field in rows[i] && rows[i][field].Text?
    ensures CountStored(rows, field, existingIds) == CountFound(BatchIds(rows, field), existingIds)
  {
    if |rows| > 0 {
      var n := |rows| - 1;
      CountStoredIsCountFound(rows[..n], field, existingIds);
      BatchIdsLast(rows, field);
      AlreadyStoredIsFoundId(existingIds, rows[n], field);
      var ids := BatchIds(rows, field);
      assert ids[..n] == BatchIds(rows[..n], field);
    }
  }

  /** Every found id is counted at least once: the count is at least the
      number of distinct ids that are found. */
  lemma {:induction false} CountFoundCoversOverlap(ids: seq<string>, existingIds: seq<string>)
    ensures CountFound(ids, existingIds) >= |IdSet(ids) * IdSet(existingIds)|
  {
    if |ids| == 0 {
      assert IdSet(ids) == {};
    } else {
      var n := |ids| - 1;
      CountFoundCoversOverlap(ids[..n], existingIds);
      assert ids == ids[..n] + [ids[n]];
      if ids[n] in ids[..n] {
        OverlapUnchanged(ids[..n], ids[n], ids, existingIds);
      } else {
        OverlapGrows(ids[..n], ids[n], ids, existingIds);
      }
    }
  }

  /** A found id that occurs twice is counted twice but is one element of the
      overlap, so the count exceeds the overlap. */
  lemma {:induction false} CountFoundRepeat(ids: seq<string>, existingIds: seq<string>, i: nat, j: nat)
    requires i < j < |ids| && ids[i] == ids[j] && ids[j] in existingIds
    ensures CountFound(ids, existingIds) >= |IdSet(ids) * IdSet(existingIds)| + 1
  {
    var n := |ids| - 1;
    var init := ids[..n];
    assert ids == init + [ids[n]];
    if j < n {
      CountFoundRepeat(init, existingIds, i, j);
      if ids[n] in init {
        OverlapUnchanged(init, ids[n], ids, existingIds);
      } else {
        OverlapGrows(init, ids[n], ids, existingIds);
      }
    } else {
      CountFoundCoversOverlap(init, existingIds);
      assert init[i] == ids[n];
      OverlapUnchanged(init, ids[n], ids, existingIds);
    }
  }

  lemma BatchIdsLast(rows: seq<Record>, field: string)
    requires |rows| > 0
    ensures BatchIds(rows, field) == BatchIds(rows[..|rows| - 1], field) + [StoredId(rows[|rows| - 1], field)]
  {
  }

  /** For a text id, being already stored is the id being among the found
      ids. */
  lemma AlreadyStoredIsFoundId(existingIds: seq<string>, rec: Record, field: string)
    requires field in rec && rec[field].Text?
    ensures AlreadyStored(existingIds, rec, field) <==> StoredId(rec, field) in existingIds
  {
  }

  /** An id already in the batch leaves the overlap as it was. */
  lemma OverlapUnchanged(init: seq<string>, x: string, ids: seq<string>, existingIds: seq<string>)
    requires ids == init + [x] && x in init
    ensures |IdSet(ids) * IdSet(existingIds)| == |IdSet(init) * IdSet(existingIds)|
  {
    assert IdSet(ids) == IdSet(init);
  }

  /** A new id grows the overlap by one exactly when it is found. */
  lemma OverlapGrows(init: seq<string>, x: string, ids: seq<string>, existingIds: seq<string>)
    requires ids == init + [x] && x !in init
    ensures |IdSet(ids) * IdSet(existingIds)| == |IdSet(init) * IdSet(existingIds)| + (if x in existingIds then 1 else 0)
  {
    IdSetAppend(init, x);
    OverlapStep(IdSet(init), IdSet(existingIds), x);
  }

  /** Two rows that share an id not among the found ids are both kept, so the
      kept rows' ids are not distinct. */
  lemma KeptRepeatBreaksDistinct(rows: seq<Record>, field: string, existingIds: seq<string>, i: nat, j: nat)
    requires i < j < |rows|
    requires StoredId(rows[i], field) == StoredId(rows[j], field)
    requires !AlreadyStored(existingIds, rows[i], field) && !AlreadyStored(existingIds, rows[j], field)
    ensures !Distinct(BatchIds(UniqueRows(rows, field, existingIds), field))
  {
    var front := rows[..j];
    var back := rows[j..];
    assert rows == front + back;
    assert back == [rows[j]] + back[1..];
    UniqueRowsAppend(front, back, field, existingIds);
    UniqueRowsAppend([rows[j]], back[1..], field, existingIds);
    UniqueRowsOne(rows[j], field, existingIds);
    var kept := UniqueRows(front, field, existingIds);
    assert front[i] == rows[i];
    assert rows[i] in kept;
    var p :| 0 <= p < |kept| && kept[p] == rows[i];
    RepeatAfterKept(kept, rows[j], UniqueRows(back[1..], field, existingIds), field, p);
  }

  /** A row placed after the kept rows repeats the id of one of them. */
  lemma RepeatAfterKept(kept: seq<Record>, row: Record, rest: seq<Record>, field: string, p: nat)
    requires p < |kept| && StoredId(kept[p], field) == StoredId(row, field)
    ensures !Distinct(BatchIds(kept + ([row] + rest), field))
  {
    var joined := kept + ([row] + rest);
    assert joined[p] == kept[p];
    assert joined[|kept|] == row;
    assert BatchIds(joined, field)[p] == BatchIds(joined, field)[|kept|];
  }

  /** In a collection with unique keys, the found ids are pairwise distinct. */
  lemma FoundIdsAreDistinct<D(!new)>(store: seq<D>, key: D -> string, ids: seq<string>)
    requires UniqueKeys(store, key)
    ensures Distinct(MapSeq(Matching(store, key, ids), key))
  {
    MatchingKeepsUniqueKeys(store, key, ids);
    UniqueKeysIsDistinctKeys(Matching(store, key, ids), key);
  }

  /** The filter drops every row when every row's id is among the found ids. */
  lemma {:induction false} AllFoundLeavesNothing(rows: seq<Record>, field: string, existingIds: seq<string>)
    requires forall i :: 0 <= i < |rows| ==> AlreadyStored(existingIds, rows[i], field)
    ensures UniqueRows(rows, field, existingIds) == []
  {
    if |rows| > 0 {
      AllFoundLeavesNothing(rows[..|rows| - 1], field, existingIds);
    }
  }

  /** Re-uploading a batch of distinct text ids that are all stored already
      inserts nothing, leaves the collection as it was, and reports every row
      as a duplicate. */
  lemma FullyStoredBatchInsertsNothing<D(!new)>(store: seq<D>, key: D -> string, rows: seq<Record>, field: string, toDoc: Record -> D)
    requires UniqueKeys(store, key)
    requires forall r :: key(toDoc(r)) == StoredId(r, field)
    requires forall i :: 0 <= i < |rows| ==> field in rows[i] && rows[i][field].Text?
    requires Distinct(BatchIds(rows, field))
    requires forall i :: 0 <= i < |rows| ==> StoredId(rows[i], field) in MapSeq(store, key)
    ensures var existingIds := ExistingIds(store, key, rows, field);
            ImportRows(store, key, rows, field, toDoc) == (Uploaded(0, |rows|, existingIds), store)
  {
    var existingIds := ExistingIds(store, key, rows, field);
    forall i | 0 <= i < |rows|
      ensures AlreadyStored(existingIds, rows[i], field)
    {
      assert BatchIds(rows, field)[i] == StoredId(rows[i], field);
      StoredBatchIdIsFound(store, key, rows, field, StoredId(rows[i], field));
    }
    AllFoundLeavesNothing(rows, field, existingIds);
    var response := ImportRows(store, key, rows, field, toDoc).0;
    CountsCoverDistinctBatch(store, key, rows, field, toDoc);
    assert response.Uploaded? && response.insertedCount + response.duplicateCount == |rows|;
    ImportAppendsUnseenRows(store, key, rows, field, toDoc);
    assert MapSeq([], toDoc) == [];
    assert store + [] == store;
  }

  /** The counts do not cover a batch that repeats a stored id: two rows
      with the stored id "A" are both dropped, but only one stored record is
      found, so one duplicate and nothing inserted is reported for two rows. */
  lemma RepeatedStoredIdIsCountedOnce<D(!new)>(store: seq<D>, key: D -> string, rows: seq<Record>, field: string, toDoc: Record -> D)
    requires |store| == 1 && key(store[0]) == "A"
    requires |rows| == 2 && rows[0] == rows[1] && field in rows[0] && rows[0][field] == Text("A")
    ensures ImportRows(store, key, rows, field, toDoc) == (Uploaded(0, 1, ["A"]), store)
    ensures var existingIds := ExistingIds(store, key, rows, field);
            |UniqueRows(rows, field, existingIds)| + |existingIds| < |rows|
  {
    StoredIdFoundOnce(store, key, rows, field);
  }

  /** A one-record store whose key is the batch's only id finds that id
      once, and both rows are dropped. */
  lemma StoredIdFoundOnce<D(!new)>(store: seq<D>, key: D -> string, rows: seq<Record>, field: string)
    requires |store| == 1 && key(store[0]) == "A"
    requires |rows| == 2 && rows[0] == rows[1] && field in rows[0] && rows[0][field] == Text("A")
    ensures ExistingIds(store, key, rows, field) == ["A"]
    ensures UniqueRows(rows, field, ["A"]) == []
  {
    AllFoundLeavesNothing(rows, field, ["A"]);
    assert store[..0] == [];
    assert BatchIds(rows, field)[0] == "A";
    assert Matching(store, key, BatchIds(rows, field)) == [store[0]];
  }

  lemma {:induction false} UniqueRowsWhenNothingFound(rows: seq<Record>, field: string)
    ensures UniqueRows(rows, field, []) == rows
  {
    if |rows| > 0 {
      var n := |rows| - 1;
      UniqueRowsWhenNothingFound(rows[..n], field);
      UniqueRowsLast(rows, field, []);
      ButLastAndLast(rows);
    }
  }

  /** A batch that repeats an id not yet stored passes the filter and fails in
      the insert: the first copy is inserted, the second raises the
      duplicate-key error, and the upload ends with status 500. */
  lemma RepeatedNewIdFailsAfterFirstCopy<D(!new)>(store: seq<D>, key: D -> string, rows: seq<Record>, field: string, toDoc: Record -> D, id: string)
    requires forall r :: key(toDoc(r)) == StoredId(r, field)
    requires id !in MapSeq(store, key)
    requires |rows| == 2 && rows[0] == rows[1] && field in rows[0] && rows[0][field] == Text(id)
    ensures ImportRows(store, key, rows, field, toDoc) == (ServerError(DuplicateKey(id)), store + [toDoc(rows[0])])
  {
    NewIdFindsNothing(store, key, rows, field, id);
    UniqueRowsWhenNothingFound(rows, field);
    DocsOfTwinRows(rows, toDoc);
    InsertTwiceFails(store, key, toDoc(rows[0]));
  }

  lemma DocsOfTwinRows<D>(rows: seq<Record>, toDoc: Record -> D)
    requires |rows| == 2 && rows[0] == rows[1]
    ensures MapSeq(rows, toDoc) == [toDoc(rows[0]), toDoc(rows[0])]
  {
  }

  /** Two copies of a row whose id is not stored find no stored record. */
  lemma NewIdFindsNothing<D(!new)>(store: seq<D>, key: D -> string, rows: seq<Record>, field: string, id: string)
    requires id !in MapSeq(store, key)
    requires |rows| == 2 && rows[0] == rows[1] && field in rows[0] && rows[0][field] == Text(id)
    ensures ExistingIds(store, key, rows, field) == []
  {
    var ids := BatchIds(rows, field);
    assert ids == [id, id];
    forall i | 0 <= i < |store|
      ensures key(store[i]) !in ids
    {
      assert MapSeq(store, key)[i] == key(store[i]);
    }
    MatchingNoneListed(store, key, ids);
  }

  /** Inserting the same new document twice stores the first copy and fails
      on the second. */
  lemma InsertTwiceFails<D>(docs: seq<D>, key: D -> string, d: D)
    requires key(d) !in MapSeq(docs, key)
    ensures Inserted(docs, key, [d, d]) == (docs + [d], Some(key(d)))
  {
    assert MapSeq(docs + [d], key)[|docs|] == key(d);
    assert [d, d][1..] == [d];
  }

  /** A numeric id is cast to text when stored and when looked up, so its
      stored record is found and reported as a duplicate; but the filter
      compares the number itself with the stored text, keeps the row, and
      the insert then fails on the duplicate key. */
  lemma NumericIdBypassesFilter<D(!new)>(store: seq<D>, key: D -> string, rows: seq<Record>, field: string, toDoc: Record -> D, n: int)
    requires forall r :: key(toDoc(r)) == StoredId(r, field)
    requires IntText(n) in MapSeq(store, key)
    requires |rows| == 1 && field in rows[0] && rows[0][field] == Number(n)
    ensures ImportRows(store, key, rows, field, toDoc) == (ServerError(DuplicateKey(IntText(n))), store)
  {
    NumberIdRowIsKept(rows, field, ExistingIds(store, key, rows, field));
    var d := toDoc(rows[0]);
    assert MapSeq(rows, toDoc) == [d];
    assert key(d) == IntText(n);
  }

  /** A lone row whose id cell is a number is never dropped by the filter. */
  lemma NumberIdRowIsKept(rows: seq<Record>, field: string, existingIds: seq<string>)
    requires |rows| == 1 && field in rows[0] && rows[0][field].Number?
    ensures UniqueRows(rows, field, existingIds) == rows
  {
    assert rows[..0] == [];
  }
}
