/** The spreadsheet reader: finds the named sheet, checks its header row
    against a header-to-field mapping, and turns every later non-empty row into
    a record keyed by the mapped field names.

    A sheet is a sequence of rows (row 1 first) and a row a sequence of cells
    (column 1 first); an empty cell is `None`. Like the spreadsheet library,
    the reader visits only non-empty cells and only rows that hold a value. */
module ExcelReader {
  import opened Common
  import opened Headers

  type Cell = Option<Value>
  type Row = seq<Cell>

  datatype Worksheet = Worksheet(name: string, rows: seq<Row>)

  type Workbook = seq<Worksheet>

  datatype ReadError =
    | SheetNotFound(sheetName: string)
      // a header-row value that is not among the mapping's headers
    | UnexpectedHeader(header: Value)
      // as many header values as mapping columns are required
    | HeadersMismatch(expected: seq<string>)
      // a data cell whose column header the mapping does not know
    | UnknownColumn(columnHeader: Cell)

  /** The first sheet of the workbook with the given name. */
  function FindSheet(book: Workbook, name: string): (found: Option<Worksheet>)
    ensures found.None? <==> forall i :: 0 <= i < |book| ==> book[i].name != name
    ensures found.Some? ==> found.value in book && found.value.name == name
  {
    if |book| == 0 then None
    else if book[0].name == name then Some(book[0])
    else FindSheet(book[1..], name)
  }

  /** A row the library visits: one with at least one non-empty cell. */
  predicate HasValues(row: Row)
  {
    exists c :: 0 <= c < |row| && row[c].Some?
  }

  /** Row 1, or an empty row when the sheet has no rows at all. */
  function HeaderRow(sheet: Worksheet): Row
  {
    if |sheet.rows| > 0 then sheet.rows[0] else []
  }

  /** Rows 2 onwards. */
  function DataRows(sheet: Worksheet): seq<Row>
  {
    if |sheet.rows| > 0 then sheet.rows[1..] else []
  }

  /** The values of a row's non-empty cells, left to right. */
  function CellValues(row: Row): (vs: seq<Value>)
    ensures |vs| <= |row|
    ensures forall v :: v in vs <==> Some(v) in row
  {
    if |row| == 0 then []
    else CellValues(row[..|row| - 1]) + (if row[|row| - 1].Some? then [row[|row| - 1].value] else [])
  }

  /** Order and multiplicity: the values of a split row are the values of
      its left part followed by those of its right part, and a single cell
      gives its value when it has one. */
  lemma {:induction false} CellValuesAppend(xs: Row, ys: Row)
    ensures CellValues(xs + ys) == CellValues(xs) + CellValues(ys)
    decreases |ys|
  {
    if |ys| == 0 {
      assert xs + ys == xs;
    } else {
      var n := |ys| - 1;
      LastOfAppend(xs, ys);
      CellValuesLast(xs + ys);
      CellValuesLast(ys);
      CellValuesAppend(xs, ys[..n]);
      Regroup(CellValues(xs + ys), CellValues(xs + ys[..n]), CellValues(xs), CellValues(ys[..n]),
        if ys[n].Some? then [ys[n].value] else [], CellValues(ys));
    }
  }

  /** One step: the values of a non-empty row are those of all but its last
      cell, followed by the last cell's value when it has one. */
  lemma CellValuesLast(row: Row)
    requires |row| > 0
    ensures CellValues(row) == CellValues(row[..|row| - 1]) + (if row[|row| - 1].Some? then [row[|row| - 1].value] else [])
  {
  }

  lemma CellValuesOne(c: Cell)
    ensures CellValues([c]) == if c.Some? then [c.value] else []
  {
    assert [c][..0] == [];
  }

  /** The mapping's headers as the cell values that match them. */
  function DefinedHeaders(mapping: seq<Column>): (defined: seq<Value>)
    ensures |defined| == |mapping|
    ensures forall i :: 0 <= i < |mapping| ==> defined[i] == Text(mapping[i].header)
  {
    if |mapping| == 0 then [] else DefinedHeaders(mapping[..|mapping| - 1]) + [Text(mapping[|mapping| - 1].header)]
  }

  /** The first header value, left to right, that is not a defined header. */
  function FirstUnknown(headers: seq<Value>, defined: seq<Value>): (unknown: Option<Value>)
    ensures unknown.None? <==> forall i :: 0 <= i < |headers| ==> headers[i] in defined
    ensures unknown.Some? ==> exists i :: 0 <= i < |headers| && headers[i] == unknown.value
                                && unknown.value !in defined
                                && forall j :: 0 <= j < i ==> headers[j] in defined
  {
    if |headers| == 0 then None
    else if headers[0] !in defined then Some(headers[0])
    else
      var rest := FirstUnknown(headers[1..], defined);
      assert forall i :: 1 <= i < |headers| ==> headers[i] == headers[1..][i - 1];
      rest
  }

  /** The key of the first mapping column whose header equals the header
      cell's value; `None` where the lookup throws "Unexpected header found"
      (no such column, or an empty header cell). */
  function MappedKey(mapping: seq<Column>, header: Cell): (key: Option<string>)
    ensures key.None? <==> forall i :: 0 <= i < |mapping| ==> header != Some(Text(mapping[i].header))
    ensures key.Some? ==> exists i :: 0 <= i < |mapping| && header == Some(Text(mapping[i].header))
                            && key.value == mapping[i].key
                            && forall j :: 0 <= j < i ==> header != Some(Text(mapping[j].header))
  {
    if |mapping| == 0 then None
    else if header == Some(Text(mapping[0].header)) then Some(mapping[0].key)
    else
      var rest := MappedKey(mapping[1..], header);
      assert forall i :: 1 <= i < |mapping| ==> mapping[i] == mapping[1..][i - 1];
      rest
  }

  /** The header cell above column `c`: empty beyond the header row's end. */
  function HeaderAt(headerRow: Row, c: nat): Cell
  {
    if c < |headerRow| then headerRow[c] else None
  }

  /** The record of one data row, built cell by cell from the left; the first
      cell under an unknown header aborts the whole read. */
  function RowRecord(headerRow: Row, row: Row, mapping: seq<Column>): Result<Record, ReadError>
    decreases |row|
  {
    if |row| == 0 then Ok(map[])
    else
      var c := |row| - 1;
      match RowRecord(headerRow, row[..c], mapping)
      case Err(e) => Err(e)
      case Ok(rec) =>
        match row[c]
        case None => Ok(rec)
        case Some(v) =>
          match MappedKey(mapping, HeaderAt(headerRow, c))
          case None => Err(UnknownColumn(HeaderAt(headerRow, c)))
          case Some(k) => Ok(rec[k := v])
  }

  /** The records of the data rows, top to bottom, skipping rows without values. */
  function RowsRecords(headerRow: Row, rows: seq<Row>, mapping: seq<Column>): Result<seq<Record>, ReadError>
    decreases |rows|
  {
    if |rows| == 0 then Ok([])
    else
      var n := |rows| - 1;
      match RowsRecords(headerRow, rows[..n], mapping)
      case Err(e) => Err(e)
      case Ok(recs) =>
        if !HasValues(rows[n]) then Ok(recs)
        else
          match RowRecord(headerRow, rows[n], mapping)
          case Err(e) => Err(e)
          case Ok(rec) => Ok(recs + [rec])
  }

  /** What reading the named sheet against a mapping yields: the sheet must
      exist; every header value must be a defined header; there must be as
      many header values as mapping columns; then one record per non-empty
      data row. */
  function ReadSheet(book: Workbook, mapping: seq<Column>, sheetName: string): Result<seq<Record>, ReadError>
  {
    match FindSheet(book, sheetName)
    case None => Err(SheetNotFound(sheetName))
    case Some(sheet) =>
      var headers := CellValues(HeaderRow(sheet));
      var defined := DefinedHeaders(mapping);
      match FirstUnknown(headers, defined)
      case Some(h) => Err(UnexpectedHeader(h))
      case None =>
        if |headers| != |defined| then Err(HeadersMismatch(HeaderNames(mapping)))
        else RowsRecords(HeaderRow(sheet), DataRows(sheet), mapping)
  }

  lemma {:induction false} RowRecordErrorPersists(headerRow: Row, row: Row, mapping: seq<Column>, k: nat)
    requires k <= |row| && RowRecord(headerRow, row[..k], mapping).Err?
    ensures RowRecord(headerRow, row, mapping) == RowRecord(headerRow, row[..k], mapping)
    decreases |row|
  {
    if k < |row| {
      var c := |row| - 1;
      assert row[..c][..k] == row[..k];
      RowRecordErrorPersists(headerRow, row[..c], mapping, k);
    } else {
      assert row[..k] == row;
    }
  }

  lemma {:induction false} RowsRecordsErrorPersists(headerRow: Row, rows: seq<Row>, mapping: seq<Column>, k: nat)
    requires k <= |rows| && RowsRecords(headerRow, rows[..k], mapping).Err?
    ensures RowsRecords(headerRow, rows, mapping) == RowsRecords(headerRow, rows[..k], mapping)
    decreases |rows|
  {
    if k < |rows| {
      var n := |rows| - 1;
      assert rows[..n][..k] == rows[..k];
      RowsRecordsErrorPersists(headerRow, rows[..n], mapping, k);
    } else {
      assert rows[..k] == rows;
    }
  }

  /** Pushes the value of every non-empty cell of the header row, left to right. */
  method CollectHeaders(headerRow: Row) returns (headers: seq<Value>)
    ensures headers == CellValues(headerRow)
  {
    headers := [];
    var c := 0;
    while c < |headerRow|
      invariant 0 <= c <= |headerRow|
      invariant headers == CellValues(headerRow[..c])
    {
      assert headerRow[..c + 1][..c] == headerRow[..c];
      if headerRow[c].Some? {
        headers := headers + [headerRow[c].value];
      }
      c := c + 1;
    }
    assert headerRow[..c] == headerRow;
  }

  /** Walks the header values and stops at the first one the mapping does not
      define. */
  method CheckHeaders(headers: seq<Value>, defined: seq<Value>) returns (unknown: Option<Value>)
    ensures unknown == FirstUnknown(headers, defined)
  {
    var i := 0;
    while i < |headers|
      invariant 0 <= i <= |headers|
      invariant forall j :: 0 <= j < i ==> headers[j] in defined
    {
      if headers[i] !in defined {
        FirstUnknownIsFirst(headers, defined, i);
        return Some(headers[i]);
      }
      i := i + 1;
    }
    return None;
  }

  /** Builds one data row's record field by field, looking up each non-empty
      cell's column header in the mapping. */
  method BuildRecord(headerRow: Row, row: Row, mapping: seq<Column>) returns (result: Result<Record, ReadError>)
    ensures result == RowRecord(headerRow, row, mapping)
  {
    var rec: Record := map[];
    var col := 0;
    while col < |row|
      invariant 0 <= col <= |row|
      invariant RowRecord(headerRow, row[..col], mapping) == Ok(rec)
    {
      assert row[..col + 1][..col] == row[..col];
      if row[col].Some? {
        var key := MappedKey(mapping, HeaderAt(headerRow, col));
        if key.None? {
          RowRecordErrorPersists(headerRow, row, mapping, col + 1);
          return Err(UnknownColumn(HeaderAt(headerRow, col)));
        }
        rec := rec[key.value := row[col].value];
      }
      col := col + 1;
    }
    assert row[..col] == row;
    result := Ok(rec);
  }

  /** Appends one record per data row that holds a value, top to bottom. */
  method ExtractRows(headerRow: Row, rows: seq<Row>, mapping: seq<Column>) returns (result: Result<seq<Record>, ReadError>)
    ensures result == RowsRecords(headerRow, rows, mapping)
  {
    var records: seq<Record> := [];
    var n := 0;
    while n < |rows|
      invariant 0 <= n <= |rows|
      invariant RowsRecords(headerRow, rows[..n], mapping) == Ok(records)
    {
      assert rows[..n + 1][..n] == rows[..n];
      if HasValues(rows[n]) {
        var rec := BuildRecord(headerRow, rows[n], mapping);
        if rec.Err? {
          RowsRecordsErrorPersists(headerRow, rows, mapping, n + 1);
          return Err(rec.error);
        }
        records := records + [rec.value];
      }
      n := n + 1;
    }
    assert rows[..n] == rows;
    result := Ok(records);
  }

  /** The reader: find the sheet, collect and check the header values, compare
      the counts, then extract the data rows. */
  method ReadExcelToJson(book: Workbook, mapping: seq<Column>, sheetName: string)
    returns (result: Result<seq<Record>, ReadError>)
    ensures result == ReadSheet(book, mapping, sheetName)
  {
    var found := FindSheet(book, sheetName);
    if found.None? {
      return Err(SheetNotFound(sheetName));
    }
    var sheet := found.value;
    var headerRow := HeaderRow(sheet);
    var headers := CollectHeaders(headerRow);
    var defined := DefinedHeaders(mapping);
    var unknown := CheckHeaders(headers, defined);
    if unknown.Some? {
      return Err(UnexpectedHeader(unknown.value));
    }
    if |headers| != |defined| {
      return Err(HeadersMismatch(HeaderNames(mapping)));
    }
    result := ExtractRows(headerRow, DataRows(sheet), mapping);
  }

  lemma {:induction false} FirstUnknownIsFirst(headers: seq<Value>, defined: seq<Value>, i: nat)
    requires i < |headers| && headers[i] !in defined
    requires forall j :: 0 <= j < i ==> headers[j] in defined
    ensures FirstUnknown(headers, defined) == Some(headers[i])
    decreases i
  {
    if i > 0 {
      FirstUnknownIsFirst(headers[1..], defined, i - 1);
    }
  }

  /** The non-empty data rows, top to bottom: the rows that yield a record. */
  function NonEmptyRows(rows: seq<Row>): (kept: seq<Row>)
    ensures |kept| <= |rows|
    ensures forall r :: r in kept <==> r in rows && HasValues(r)
  {
    if |rows| == 0 then []
    else NonEmptyRows(rows[..|rows| - 1]) + (if HasValues(rows[|rows| - 1]) then [rows[|rows| - 1]] else [])
  }

  /** Order and multiplicity: the non-empty rows of a split sheet are those of
      its upper part followed by those of its lower part, and a single row is
      kept exactly when it holds a value. */
  lemma {:induction false} NonEmptyRowsAppend(xs: seq<Row>, ys: seq<Row>)
    ensures NonEmptyRows(xs + ys) == NonEmptyRows(xs) + NonEmptyRows(ys)
    decreases |ys|
  {
    if |ys| == 0 {
      assert xs + ys == xs;
    } else {
      var n := |ys| - 1;
      LastOfAppend(xs, ys);
      NonEmptyRowsLast(xs + ys);
      NonEmptyRowsLast(ys);
      NonEmptyRowsAppend(xs, ys[..n]);
      Regroup(NonEmptyRows(xs + ys), NonEmptyRows(xs + ys[..n]), NonEmptyRows(xs), NonEmptyRows(ys[..n]),
        if HasValues(ys[n]) then [ys[n]] else [], NonEmptyRows(ys));
    }
  }

  /** One step: the non-empty rows of a sheet are those of all but its last
      row, followed by the last row when it holds a value. */
  lemma NonEmptyRowsLast(rows: seq<Row>)
    requires |rows| > 0
    ensures NonEmptyRows(rows) == NonEmptyRows(rows[..|rows| - 1]) + (if HasValues(rows[|rows| - 1]) then [rows[|rows| - 1]] else [])
  {
  }

  lemma NonEmptyRowsOne(row: Row)
    ensures NonEmptyRows([row]) == if HasValues(row) then [row] else []
  {
    assert [row][..0] == [];
  }

  /** Every read error raised while extracting rows is an unknown column
      header: the sheet and header checks happen only before extraction. */
  lemma {:induction false} RowRecordErrorIsUnknownColumn(headerRow: Row, row: Row, mapping: seq<Column>)
    requires RowRecord(headerRow, row, mapping).Err?
    ensures RowRecord(headerRow, row, mapping).error.UnknownColumn?
    decreases |row|
  {
    var c := |row| - 1;
    if RowRecord(headerRow, row[..c], mapping).Err? {
      RowRecordErrorIsUnknownColumn(headerRow, row[..c], mapping);
    }
  }

  lemma {:induction false} RowsRecordsErrorIsUnknownColumn(headerRow: Row, rows: seq<Row>, mapping: seq<Column>)
    requires RowsRecords(headerRow, rows, mapping).Err?
    ensures RowsRecords(headerRow, rows, mapping).error.UnknownColumn?
    decreases |rows|
  {
    var n := |rows| - 1;
    if RowsRecords(headerRow, rows[..n], mapping).Err? {
      RowsRecordsErrorIsUnknownColumn(headerRow, rows[..n], mapping);
    } else {
      RowRecordErrorIsUnknownColumn(headerRow, rows[n], mapping);
    }
  }

  /** Reading fails with "sheet not found", and yields no records, exactly
      when the workbook has no sheet of that name. */
  lemma MissingSheetFails(book: Workbook, mapping: seq<Column>, sheetName: string)
    ensures ReadSheet(book, mapping, sheetName) == Err(SheetNotFound(sheetName))
            <==> forall i :: 0 <= i < |book| ==> book[i].name != sheetName
  {
    var found := FindSheet(book, sheetName);
    if found.Some? {
      var sheet := found.value;
      var r := RowsRecords(HeaderRow(sheet), DataRows(sheet), mapping);
      if r.Err? {
        RowsRecordsErrorIsUnknownColumn(HeaderRow(sheet), DataRows(sheet), mapping);
      }
    }
  }

  /** The first header value, left to right, that the mapping does not define
      makes reading fail with that value, whatever the data rows hold. */
  lemma UnknownHeaderFails(book: Workbook, mapping: seq<Column>, sheetName: string, sheet: Worksheet, i: nat)
    requires FindSheet(book, sheetName) == Some(sheet)
    requires i < |CellValues(HeaderRow(sheet))|
    requires CellValues(HeaderRow(sheet))[i] !in DefinedHeaders(mapping)
    requires forall j :: 0 <= j < i ==> CellValues(HeaderRow(sheet))[j] in DefinedHeaders(mapping)
    ensures ReadSheet(book, mapping, sheetName) == Err(UnexpectedHeader(CellValues(HeaderRow(sheet))[i]))
  {
    FirstUnknownIsFirst(CellValues(HeaderRow(sheet)), DefinedHeaders(mapping), i);
  }

  /** When every header value is defined but their number differs from the
      mapping's length, reading fails naming the expected headers. */
  lemma HeaderCountMismatchFails(book: Workbook, mapping: seq<Column>, sheetName: string, sheet: Worksheet)
    requires FindSheet(book, sheetName) == Some(sheet)
    requires forall h :: h in CellValues(HeaderRow(sheet)) ==> h in DefinedHeaders(mapping)
    requires |CellValues(HeaderRow(sheet))| != |mapping|
    ensures ReadSheet(book, mapping, sheetName) == Err(HeadersMismatch(HeaderNames(mapping)))
  {
  }

  /** All that acceptance guarantees about the header row: every value is a
      defined header and there are as many as mapping columns. Only when the
      header values are pairwise distinct are they a permutation of the
      mapping's headers (and the mapping's headers then distinct too). */
  lemma AcceptedHeaders(book: Workbook, mapping: seq<Column>, sheetName: string, sheet: Worksheet)
    requires FindSheet(book, sheetName) == Some(sheet)
    requires ReadSheet(book, mapping, sheetName).Ok?
    ensures forall h :: h in CellValues(HeaderRow(sheet)) ==> h in DefinedHeaders(mapping)
    ensures |CellValues(HeaderRow(sheet))| == |mapping|
    ensures Distinct(CellValues(HeaderRow(sheet))) ==>
              multiset(CellValues(HeaderRow(sheet))) == multiset(DefinedHeaders(mapping))
              && Distinct(DefinedHeaders(mapping))
  {
    var hs := CellValues(HeaderRow(sheet));
    var defined := DefinedHeaders(mapping);
    if Distinct(hs) {
      SameSizeCoverIsPermutation(hs, defined);
    }
  }

  lemma {:induction false} DistinctSetSize<T>(xs: seq<T>)
    requires Distinct(xs)
    ensures |set x | x in xs| == |xs|
  {
    if |xs| > 0 {
      var init := xs[..|xs| - 1];
      DistinctSetSize(init);
      assert (set x | x in xs) == (set x | x in init) + {xs[|xs| - 1]};
      assert xs[|xs| - 1] !in init;
    }
  }

  lemma {:induction false} SetSizeAtMostLength<T>(xs: seq<T>)
    ensures |set x | x in xs| <= |xs|
  {
    if |xs| > 0 {
      var init := xs[..|xs| - 1];
      SetSizeAtMostLength(init);
      assert (set x | x in xs) == (set x | x in init) + {xs[|xs| - 1]};
    }
  }

  /** A sequence whose set has as many elements as the sequence is long has
      no repeated element. */
  lemma {:induction false} FullSetIsDistinct<T>(xs: seq<T>)
    requires |set x | x in xs| == |xs|
    ensures Distinct(xs)
  {
    if |xs| > 0 {
      var init := xs[..|xs| - 1];
      var last := xs[|xs| - 1];
      assert (set x | x in xs) == (set x | x in init) + {last};
      SetSizeAtMostLength(init);
      assert last !in init;
      assert |set x | x in init| == |init|;
      FullSetIsDistinct(init);
    }
  }

  lemma {:induction false} DistinctMultiplicity<T>(xs: seq<T>, y: T)
    requires Distinct(xs)
    ensures multiset(xs)[y] == if y in xs then 1 else 0
  {
    if |xs| > 0 {
      var init := xs[..|xs| - 1];
      assert xs == init + [xs[|xs| - 1]];
      DistinctMultiplicity(init, y);
    }
  }

  /** Distinct values drawn from `ys`, as many as `ys` has elements, are a
      permutation of `ys`. */
  lemma SameSizeCoverIsPermutation<T>(xs: seq<T>, ys: seq<T>)
    requires Distinct(xs) && |xs| == |ys|
    requires forall x :: x in xs ==> x in ys
    ensures Distinct(ys) && multiset(xs) == multiset(ys)
  {
    var sx := set x | x in xs;
    var sy := set y | y in ys;
    DistinctSetSize(xs);
    SetSizeAtMostLength(ys);
    assert sx <= sy;
    assert |sy - sx| == |sy| - |sx|;
    assert |sy - sx| == 0;
    assert sx == sy;
    FullSetIsDistinct(ys);
    forall z
      ensures multiset(xs)[z] == multiset(ys)[z]
    {
      DistinctMultiplicity(xs, z);
      DistinctMultiplicity(ys, z);
      assert z in xs <==> z in sx;
      assert z in ys <==> z in sy;
    }
  }

  /** The header row of the acceptance-gap example: "Invoice ID" twice, no
      "Customer ID". */
  ghost predicate IsGapHeaderRow(h: Row)
  {
    |h| == 4 && h[0] == Some(Text("Invoice ID")) && h[1] == Some(Text("Invoice ID"))
    && h[2] == Some(Text("Invoice Date")) && h[3] == Some(Text("Amount"))
  }

  ghost predicate IsGapDataRow(row: Row)
  {
    |row| == 4 && row[0] == Some(Text("A1")) && row[1] == Some(Text("C1"))
    && row[2] == Some(Text("2024-01-31")) && row[3] == Some(Number(100))
  }

  lemma GapHeadersPass(h: Row)
    requires IsGapHeaderRow(h)
    ensures CellValues(h) == [Text("Invoice ID"), Text("Invoice ID"), Text("Invoice Date"), Text("Amount")]
    ensures FirstUnknown(CellValues(h), DefinedHeaders(InvoiceHeaders)).None?
  {
    assert h[..1][..0] == [];
    assert h[..2][..1] == h[..1] && h[..3][..2] == h[..2] && h[..4][..3] == h[..3] && h[..4] == h;
    assert CellValues(h[..1]) == [Text("Invoice ID")];
    assert CellValues(h[..2]) == [Text("Invoice ID"), Text("Invoice ID")];
    assert CellValues(h[..3]) == [Text("Invoice ID"), Text("Invoice ID"), Text("Invoice Date")];
    assert DefinedHeaders(InvoiceHeaders)[0] == Text("Invoice ID");
    assert DefinedHeaders(InvoiceHeaders)[2] == Text("Invoice Date");
    assert DefinedHeaders(InvoiceHeaders)[3] == Text("Amount");
  }

  lemma GapKeys()
    ensures MappedKey(InvoiceHeaders, Some(Text("Invoice ID"))) == Some("invoiceId")
    ensures MappedKey(InvoiceHeaders, Some(Text("Invoice Date"))) == Some("invoiceDate")
    ensures MappedKey(InvoiceHeaders, Some(Text("Amount"))) == Some("amount")
  {
    InvoiceMappingIsUnambiguous();
    MappedKeyOfColumn(InvoiceHeaders, 0);
    MappedKeyOfColumn(InvoiceHeaders, 2);
    MappedKeyOfColumn(InvoiceHeaders, 3);
  }

  /** In a mapping whose headers are pairwise distinct, a column's header
      maps to that column's key. */
  lemma {:induction false} MappedKeyOfColumn(mapping: seq<Column>, i: nat)
    requires Distinct(HeaderNames(mapping)) && i < |mapping|
    ensures MappedKey(mapping, Some(Text(mapping[i].header))) == Some(mapping[i].key)
  {
    if i > 0 {
      var rest := mapping[1..];
      assert HeaderNames(mapping)[0] != HeaderNames(mapping)[i];
      forall a, b | 0 <= a < b < |rest|
        ensures HeaderNames(rest)[a] != HeaderNames(rest)[b]
      {
        assert HeaderNames(mapping)[a + 1] != HeaderNames(mapping)[b + 1];
      }
      assert rest[i - 1] == mapping[i];
      MappedKeyOfColumn(rest, i - 1);
    }
  }

  lemma GapColumnHeaders(h: Row, row: Row, c: nat)
    requires IsGapHeaderRow(h) && IsGapDataRow(row) && c < |row|
    ensures HeaderAt(h, c) ==
              if c <= 1 then Some(Text("Invoice ID")) else if c == 2 then Some(Text("Invoice Date")) else Some(Text("Amount"))
  {
  }

  lemma GapRowBuilds(h: Row, row: Row)
    requires IsGapHeaderRow(h) && IsGapDataRow(row)
    ensures RowRecord(h, row, InvoiceHeaders).Ok?
  {
    forall c | 0 <= c < |row|
      ensures MappedKey(InvoiceHeaders, HeaderAt(h, c)).Some?
    {
      GapColumnHeaders(h, row, c);
      GapKeys();
    }
    RowRecordOkWhenAllKnown(h, row, InvoiceHeaders);
  }

  lemma GapRecordLacksCustomer(h: Row, row: Row)
    requires IsGapHeaderRow(h) && IsGapDataRow(row)
    requires RowRecord(h, row, InvoiceHeaders).Ok?
    ensures "customerId" !in RowRecord(h, row, InvoiceHeaders).value
  {
    var rec := RowRecord(h, row, InvoiceHeaders).value;
    if "customerId" in rec {
      RecordKeyHasCell(h, row, InvoiceHeaders, "customerId");
      var c :| 0 <= c < |row| && row[c].Some? && MappedKey(InvoiceHeaders, HeaderAt(h, c)) == Some("customerId");
      GapColumnHeaders(h, row, c);
      GapKeys();
      assert false;
    }
  }

  lemma GapRecordInvoiceId(h: Row, row: Row)
    requires IsGapHeaderRow(h) && IsGapDataRow(row)
    requires RowRecord(h, row, InvoiceHeaders).Ok?
    ensures var rec := RowRecord(h, row, InvoiceHeaders).value;
            "invoiceId" in rec && rec["invoiceId"] == Text("C1")
  {
    GapKeys();
    GapColumnHeaders(h, row, 1);
    forall d | 1 < d < |row| && row[d].Some?
      ensures MappedKey(InvoiceHeaders, HeaderAt(h, d)) != MappedKey(InvoiceHeaders, HeaderAt(h, 1))
    {
      GapColumnHeaders(h, row, d);
      assert "invoiceDate" != "invoiceId" && "amount" != "invoiceId";
    }
    assert LastWithKey(h, row, InvoiceHeaders, 1);
    RecordValues(h, row, InvoiceHeaders, 1);
    assert row[1] == Some(Text("C1"));
  }

  /** The acceptance gap: a header row that repeats "Invoice ID" and leaves
      out "Customer ID" passes both header checks, and its record has no
      customer field (the repeated column's later cell wins the invoice field). */
  lemma RepeatedHeaderIsAccepted(h: Row, row: Row)
    requires IsGapHeaderRow(h) && IsGapDataRow(row)
    ensures var r := ReadSheet([Worksheet("Invoice", [h, row])], InvoiceHeaders, "Invoice");
            && r.Ok? && |r.value| == 1
            && "customerId" !in r.value[0]
            && "invoiceId" in r.value[0] && r.value[0]["invoiceId"] == Text("C1")
  {
    GapSheetReadsDataRow(h, row);
    GapRowBuilds(h, row);
    GapRecordLacksCustomer(h, row);
    GapRecordInvoiceId(h, row);
    assert HasValues(row) by { assert row[0].Some?; }
    SingleRowRecords(h, row, InvoiceHeaders);
  }

  lemma GapSheetReadsDataRow(h: Row, row: Row)
    requires IsGapHeaderRow(h) && IsGapDataRow(row)
    ensures ReadSheet([Worksheet("Invoice", [h, row])], InvoiceHeaders, "Invoice") == RowsRecords(h, [row], InvoiceHeaders)
  {
    var sheet := Worksheet("Invoice", [h, row]);
    assert FindSheet([sheet], "Invoice") == Some(sheet);
    assert HeaderRow(sheet) == h;
    GapHeadersPass(h);
    assert |DefinedHeaders(InvoiceHeaders)| == 4;
    assert DataRows(sheet) == [row];
  }

  lemma SingleRowRecords(headerRow: Row, row: Row, mapping: seq<Column>)
    requires RowRecord(headerRow, row, mapping).Ok? && HasValues(row)
    ensures RowsRecords(headerRow, [row], mapping) == Ok([RowRecord(headerRow, row, mapping).value])
  {
    var rows: seq<Row> := [row];
    var rec := RowRecord(headerRow, row, mapping).value;
    assert rows[..0] == [];
    assert RowsRecords(headerRow, rows[..0], mapping) == Ok([]);
    assert rows[0] == row;
    assert RowRecord(headerRow, rows[0], mapping) == Ok(rec);
    var empty: seq<Record> := [];
    assert empty + [rec] == [rec];
    assert RowsRecords(headerRow, rows, mapping) == Ok(empty + [rec]);
  }

  /** Building a row's record succeeds when every non-empty cell's column
      header has a mapped key (the converse of `RecordHasCellKey`). */
  lemma {:induction false} RowRecordOkWhenAllKnown(headerRow: Row, row: Row, mapping: seq<Column>)
    requires forall c :: 0 <= c < |row| && row[c].Some? ==> MappedKey(mapping, HeaderAt(headerRow, c)).Some?
    ensures RowRecord(headerRow, row, mapping).Ok?
    decreases |row|
  {
    if |row| > 0 {
      var last := |row| - 1;
      assert forall c :: 0 <= c < last ==> row[..last][c] == row[c];
      RowRecordOkWhenAllKnown(headerRow, row[..last], mapping);
    }
  }

  /** Extraction succeeds with one record per non-empty data row, in row
      order, each record being that row's own record. */
  lemma {:induction false} RecordsFollowRows(headerRow: Row, rows: seq<Row>, mapping: seq<Column>)
    requires RowsRecords(headerRow, rows, mapping).Ok?
    ensures var recs := RowsRecords(headerRow, rows, mapping).value;
            |recs| == |NonEmptyRows(rows)|
            && forall k :: 0 <= k < |recs| ==> RowRecord(headerRow, NonEmptyRows(rows)[k], mapping) == Ok(recs[k])
    decreases |rows|
  {
    if |rows| > 0 {
      RecordsFollowRows(headerRow, rows[..|rows| - 1], mapping);
    }
  }

  /** Reading yields one record per data row that holds a value (row 2
      onwards, in row order); the header row is never emitted. */
  lemma ReadSheetRecords(book: Workbook, mapping: seq<Column>, sheetName: string, sheet: Worksheet)
    requires FindSheet(book, sheetName) == Some(sheet)
    requires ReadSheet(book, mapping, sheetName).Ok?
    ensures var recs := ReadSheet(book, mapping, sheetName).value;
            var rows := NonEmptyRows(DataRows(sheet));
            |recs| == |rows|
            && forall k :: 0 <= k < |recs| ==> RowRecord(HeaderRow(sheet), rows[k], mapping) == Ok(recs[k])
  {
    RecordsFollowRows(HeaderRow(sheet), DataRows(sheet), mapping);
  }

  /** A sheet with an accepted header row and nothing below it reads as an
      empty list, not an error. */
  lemma HeaderOnlySheetIsEmpty(book: Workbook, mapping: seq<Column>, sheetName: string, sheet: Worksheet)
    requires FindSheet(book, sheetName) == Some(sheet) && |sheet.rows| <= 1
    requires forall h :: h in CellValues(HeaderRow(sheet)) ==> h in DefinedHeaders(mapping)
    requires |CellValues(HeaderRow(sheet))| == |mapping|
    ensures ReadSheet(book, mapping, sheetName) == Ok([])
  {
  }

  /** In a successfully built record, every non-empty cell's column header
      has a mapped key, and that key is a field of the record. */
  lemma {:induction false} RecordHasCellKey(headerRow: Row, row: Row, mapping: seq<Column>, c: nat)
    requires RowRecord(headerRow, row, mapping).Ok?
    requires c < |row| && row[c].Some?
    ensures MappedKey(mapping, HeaderAt(headerRow, c)).Some?
    ensures MappedKey(mapping, HeaderAt(headerRow, c)).value in RowRecord(headerRow, row, mapping).value
    decreases |row|
  {
    var last := |row| - 1;
    if c < last {
      assert row[..last][c] == row[c];
      RecordHasCellKey(headerRow, row[..last], mapping, c);
    }
  }

  /** Every field of a row's record comes from a non-empty cell of that row
      whose column header maps to it. */
  lemma {:induction false} RecordKeyHasCell(headerRow: Row, row: Row, mapping: seq<Column>, k: string)
    requires RowRecord(headerRow, row, mapping).Ok?
    requires k in RowRecord(headerRow, row, mapping).value
    ensures exists c :: 0 <= c < |row| && row[c].Some? && MappedKey(mapping, HeaderAt(headerRow, c)) == Some(k)
    decreases |row|
  {
    var last := |row| - 1;
    var init := row[..last];
    if row[last].Some? && MappedKey(mapping, HeaderAt(headerRow, last)) == Some(k) {
    } else {
      RecordKeyHasCell(headerRow, init, mapping, k);
      var c :| 0 <= c < |init| && init[c].Some? && MappedKey(mapping, HeaderAt(headerRow, c)) == Some(k);
      assert row[c] == init[c];
    }
  }

  /** Each field of a row's record holds the value of the non-empty cell in
      that field's column; where two columns map to the same key, the later
      cell's value wins. */
  lemma {:induction false} RecordValues(headerRow: Row, row: Row, mapping: seq<Column>, c: nat)
    requires RowRecord(headerRow, row, mapping).Ok?
    requires c < |row| && row[c].Some? && LastWithKey(headerRow, row, mapping, c)
    ensures MappedKey(mapping, HeaderAt(headerRow, c)).Some?
    ensures var rec := RowRecord(headerRow, row, mapping).value;
            var k := MappedKey(mapping, HeaderAt(headerRow, c)).value;
            k in rec && rec[k] == row[c].value
    decreases |row|
  {
    RecordHasCellKey(headerRow, row, mapping, c);
    var last := |row| - 1;
    if c < last {
      var init := row[..last];
      assert init[c] == row[c];
      assert LastWithKey(headerRow, init, mapping, c);
      RecordValues(headerRow, init, mapping, c);
    }
  }

  /** No later non-empty cell of the row maps to the same key as column `c`. */
  ghost predicate LastWithKey(headerRow: Row, row: Row, mapping: seq<Column>, c: nat)
    requires c < |row|
  {
    forall d :: c < d < |row| && row[d].Some? ==> MappedKey(mapping, HeaderAt(headerRow, d)) != MappedKey(mapping, HeaderAt(headerRow, c))
  }

  /** Successful extraction means every non-empty data row built its record. */
  lemma {:induction false} ExtractedRowsBuilt(headerRow: Row, rows: seq<Row>, mapping: seq<Column>, n: nat)
    requires RowsRecords(headerRow, rows, mapping).Ok?
    requires n < |rows| && HasValues(rows[n])
    ensures RowRecord(headerRow, rows[n], mapping).Ok?
    decreases |rows|
  {
    if n < |rows| - 1 {
      ExtractedRowsBuilt(headerRow, rows[..|rows| - 1], mapping, n);
    }
  }

  /** A non-empty cell in a data row under a header cell the mapping does not
      know (an empty header cell included) makes the whole read fail. */
  lemma CellUnderUnknownHeaderFails(book: Workbook, mapping: seq<Column>, sheetName: string, sheet: Worksheet, n: nat, c: nat)
    requires FindSheet(book, sheetName) == Some(sheet)
    requires 1 <= n < |sheet.rows| && c < |sheet.rows[n]| && sheet.rows[n][c].Some?
    requires MappedKey(mapping, HeaderAt(HeaderRow(sheet), c)).None?
    ensures ReadSheet(book, mapping, sheetName).Err?
  {
    var rows := DataRows(sheet);
    assert rows[n - 1] == sheet.rows[n];
    if RowsRecords(HeaderRow(sheet), rows, mapping).Ok? {
      ExtractedRowsBuilt(HeaderRow(sheet), rows, mapping, n - 1);
      RecordHasCellKey(HeaderRow(sheet), rows[n - 1], mapping, c);
    }
  }
}
