/**
  The loading half of `export_table`: the schema is sanitised into the
  destination table's columns, every decoded CSV record after the header is
  padded or truncated to the schema's width and its fields cleaned, and the
  rows are inserted one by one until the records run out, the CSV reader
  fails, or the optional row cap is reached.

  The SQLite engine is not modelled: whether one INSERT succeeds is the
  verdict of an oracle `insertOk`, and the table's contents are the rows it
  accepted.
 */
module TableLoader {
  import opened Strings
  import opened Optional
  import opened SchemaReader

  /** The declared types a destination column may have. */
  const AllowedTypes: set<string> := {"INTEGER", "TEXT", "REAL", "BLOB", "NUMERIC"}

  /** `col_name.replace('"', '').replace("'", '').strip()` */
  function SafeName(name: string): (r: string)
    ensures '"' !in r && '\'' !in r
    ensures r == [] || (!IsSpace(r[0]) && !IsSpace(r[|r| - 1]))
  {
    Strip(RemoveChar(RemoveChar(name, '"'), '\''))
  }

  /** An allowed type is kept; any other declared type becomes TEXT. */
  function SafeType(t: string): (r: string)
    ensures r in AllowedTypes
    ensures t in AllowedTypes ==> r == t
  {
    if t in AllowedTypes then t else "TEXT"
  }

  function SanitizeColumn(c: Column): Column {
    Column(SafeName(c.name), SafeType(c.ctype))
  }

  /** The sanitised schema: one column per schema entry, in the same order. */
  function Sanitize(schema: seq<Column>): (clean: seq<Column>)
    ensures |clean| == |schema|
    ensures forall i :: 0 <= i < |schema| ==> clean[i] == SanitizeColumn(schema[i])
  {
    MapAll(schema, SanitizeColumn);
    Map(schema, SanitizeColumn)
  }

  /** A sanitised column: a name free of quotes and surrounding whitespace
      and an allowed type. */
  predicate IsSanitized(c: Column) {
    && '"' !in c.name && '\'' !in c.name
    && (c.name == [] || (!IsSpace(c.name[0]) && !IsSpace(c.name[|c.name| - 1])))
    && c.ctype in AllowedTypes
  }

  /** Every sanitised column has a clean name and an allowed type; a type is
      kept exactly when it is allowed, and becomes TEXT otherwise. */
  lemma SanitizedColumns(schema: seq<Column>)
    ensures forall i :: 0 <= i < |schema| ==> IsSanitized(Sanitize(schema)[i])
    ensures forall i :: 0 <= i < |schema| ==>
      Sanitize(schema)[i].ctype == if schema[i].ctype in AllowedTypes then schema[i].ctype else "TEXT"
  {
  }

  /** Builds the sanitised schema by appending one column per entry. */
  method SanitizeSchema(schema: seq<Column>) returns (sanitized: seq<Column>)
    ensures sanitized == Sanitize(schema)
    ensures forall i :: 0 <= i < |sanitized| ==> IsSanitized(sanitized[i])
    ensures forall i :: 0 <= i < |schema| ==>
      sanitized[i].ctype == if schema[i].ctype in AllowedTypes then schema[i].ctype else "TEXT"
  {
    sanitized := [];
    for i := 0 to |schema|
      invariant sanitized == Map(schema[..i], SanitizeColumn)
    {
      var colName := schema[i].name;
      var colType := schema[i].ctype;
      var safeName := SafeName(colName);
      var safeType := SafeType(colType);
      MapSnoc(schema, i, SanitizeColumn);
      sanitized := sanitized + [Column(safeName, safeType)];
    }
    assert schema[..|schema|] == schema;
    SanitizedColumns(schema);
  }

  /** Sanitising a sanitised schema changes nothing. */
  lemma SanitizeIdempotent(schema: seq<Column>)
    ensures Sanitize(Sanitize(schema)) == Sanitize(schema)
  {
    var once := Sanitize(schema);
    forall i | 0 <= i < |once|
      ensures SanitizeColumn(once[i]) == once[i]
    {
      var n := once[i].name;
      assert RemoveChar(RemoveChar(n, '"'), '\'') == n;
    }
  }

  /** A field after cleaning: `None` is SQL NULL. */
  type Row = seq<Option<string>>

  /** A record padded with `''` or truncated to `width` fields. */
  function Fit(fields: seq<string>, width: nat): (r: seq<string>)
    ensures |r| == width
    ensures forall i :: 0 <= i < width ==> r[i] == if i < |fields| then fields[i] else ""
  {
    if |fields| < width then fields + seq(width - |fields|, _ => "")
    else if |fields| > width then fields[..width]
    else fields
  }

  /** The cleaning of one field: `''` and any-case `NULL` are NULL; otherwise
      NUL characters are removed and surrounding whitespace stripped, and
      what is left, if anything, is kept. A kept value is never empty, holds
      no NUL and neither starts nor ends with whitespace. */
  function NormaliseField(val: string): (f: Option<string>)
    ensures f.Some? ==> f.value != [] && '\0' !in f.value
    ensures f.Some? ==> !IsSpace(f.value[0]) && !IsSpace(f.value[|f.value| - 1])
  {
    if val == "" || Upper(val) == "NULL" then None
    else
      var cleaned := Strip(RemoveChar(val, '\0'));
      if cleaned != "" then Some(cleaned) else None
  }

  /** A field becomes NULL exactly when it is empty, reads `NULL` in any
      letter case, or consists of nothing but whitespace and NUL characters. */
  lemma NormaliseFieldNull(val: string)
    ensures NormaliseField(val) == None <==>
      val == "" || Upper(val) == "NULL" || forall i :: 0 <= i < |val| ==> IsSpace(val[i]) || val[i] == '\0'
  {
    if val != "" && Upper(val) != "NULL" {
      var removed := RemoveChar(val, '\0');
      TrimEmpty(removed, IsSpace);
      if forall i :: 0 <= i < |val| ==> IsSpace(val[i]) || val[i] == '\0' {
        forall j | 0 <= j < |removed| ensures IsSpace(removed[j]) {
          assert removed[j] in val;
        }
      } else {
        var i :| 0 <= i < |val| && !IsSpace(val[i]) && val[i] != '\0';
        assert val[i] in removed;
      }
    }
  }

  /** A value that is already clean (non-empty, not `NULL` in any case, no NUL,
      no surrounding whitespace) is stored unchanged. */
  lemma NormaliseFieldKeepsClean(val: string)
    requires val != "" && Upper(val) != "NULL" && '\0' !in val
    requires !IsSpace(val[0]) && !IsSpace(val[|val| - 1])
    ensures NormaliseField(val) == Some(val)
  {
  }

  /** A kept value is the field with its NUL characters removed and nothing
      else but whitespace cut from its two ends: it sits at some offset `a`
      of the NUL-free field, with only whitespace before and after it. */
  lemma NormaliseFieldKept(val: string) returns (a: nat)
    requires NormaliseField(val).Some?
    ensures CutFrom(RemoveChar(val, '\0'), NormaliseField(val).value, a, IsSpace)
  {
    a := TrimSlice(RemoveChar(val, '\0'), IsSpace);
  }

  /** Conversely, a clean value padded with whitespace on either side is
      kept as exactly that value (unless the whole field reads `NULL`). */
  lemma NormaliseFieldPadded(pre: string, v: string, post: string)
    requires forall i :: 0 <= i < |pre| ==> IsSpace(pre[i])
    requires forall i :: 0 <= i < |post| ==> IsSpace(post[i])
    requires v != "" && '\0' !in v && !IsSpace(v[0]) && !IsSpace(v[|v| - 1])
    requires Upper(pre + v + post) != "NULL"
    ensures NormaliseField(pre + v + post) == Some(v)
  {
    var val := pre + v + post;
    assert '\0' !in val by {
      forall i | 0 <= i < |val|
        ensures val[i] != '\0'
      {
        if i < |pre| {
          assert val[i] == pre[i];
        } else if i < |pre| + |v| {
          assert val[i] == v[i - |pre|];
        } else {
          assert val[i] == post[i - |pre| - |v|];
        }
      }
    }
    TrimPadded(pre, v, post, IsSpace);
  }

  /** `"  foo  "` is stored as `"foo"`. */
  lemma NormaliseFieldExample()
    ensures NormaliseField("  foo  ") == Some("foo")
  {
    assert "  foo  " == "  " + "foo" + "  ";
    NormaliseFieldPadded("  ", "foo", "  ");
  }

  /** One record as inserted: the record fitted to `width` fields, each
      field cleaned. */
  function NormaliseRow(fields: seq<string>, width: nat): (row: Row) {
    Map(Fit(fields, width), NormaliseField)
  }

  /** A normalised row has exactly `width` fields; the fields past the end of
      a short record are NULL, the others are the record's fields cleaned. */
  lemma NormaliseRowShape(fields: seq<string>, width: nat)
    ensures |NormaliseRow(fields, width)| == width
    ensures forall i :: 0 <= i < width && i < |fields| ==> NormaliseRow(fields, width)[i] == NormaliseField(fields[i])
    ensures forall i :: |fields| <= i < width ==> NormaliseRow(fields, width)[i] == None
  {
    forall i | 0 <= i < width
      ensures NormaliseRow(fields, width)[i] == NormaliseField(Fit(fields, width)[i])
    {
      MapAt(Fit(fields, width), NormaliseField, i);
    }
  }

  /** Pads or truncates the record in place, then appends one cleaned value
      per field. */
  method CleanRow(fields: seq<string>, width: nat) returns (processed: Row)
    ensures processed == NormaliseRow(fields, width)
  {
    var row := fields;
    if |row| < width {
      row := row + seq(width - |row|, _ => "");
    } else if |row| > width {
      row := row[..width];
    }
    assert row == Fit(fields, width) by {
      if |fields| < width {
        assert row == fields + seq(width - |fields|, _ => "");
      }
    }
    processed := [];
    for i := 0 to |row|
      invariant processed == Map(row[..i], NormaliseField)
    {
      MapSnoc(row, i, NormaliseField);
      processed := processed + [NormaliseField(row[i])];
    }
    assert row[..|row|] == row;
  }

  /** One decoded CSV record, or a record the CSV reader failed on. */
  datatype CsvRecord = Record(fields: seq<string>) | Malformed

  /** The destination's verdict on inserting a processed row read at a
      given line of the CSV file. */
  type InsertOracle = (nat, Row) -> bool

  /** The line number `enumerate(csv_reader, start=2)` gives the k-th data
      record (counting from 0, after the header). */
  function LineOf(k: nat): nat {
    k + 2
  }

  /** `self.row_limit and row_count >= self.row_limit`: a cap of None or 0
      never stops the import. */
  predicate CapReached(limit: Option<int>, rowCount: nat) {
    limit.Some? && limit.value != 0 && rowCount >= limit.value
  }

  /** What processing one record leads to once the loop reaches it: the
      reader fails on it, its processed row is inserted, or the insert is
      refused and its line number is logged as skipped. */
  datatype Step = ReadFails | Insert(row: Row) | Skip(line: nat)

  /** The step of the k-th data record. */
  function StepOf(data: seq<CsvRecord>, width: nat, insertOk: InsertOracle, k: nat): Step
    requires k < |data|
  {
    match data[k]
    case Malformed => ReadFails
    case Record(fields) =>
      var row := NormaliseRow(fields, width);
      if insertOk(LineOf(k), row) then Insert(row) else Skip(LineOf(k))
  }

  /** The steps of the first k data records, in reading order. */
  function Steps(data: seq<CsvRecord>, width: nat, insertOk: InsertOracle, k: nat): (steps: seq<Step>)
    requires k <= |data|
    ensures |steps| == k
  {
    if k == 0 then [] else Steps(data, width, insertOk, k - 1) + [StepOf(data, width, insertOk, k - 1)]
  }

  /** The steps of all data records. */
  function AllSteps(data: seq<CsvRecord>, width: nat, insertOk: InsertOracle): (steps: seq<Step>)
    ensures |steps| == |data|
  {
    Steps(data, width, insertOk, |data|)
  }

  lemma {:induction false} StepsAt(data: seq<CsvRecord>, width: nat, insertOk: InsertOracle, k: nat, i: nat)
    requires i < k <= |data|
    ensures Steps(data, width, insertOk, k)[i] == StepOf(data, width, insertOk, i)
    decreases k
  {
    if i < k - 1 {
      StepsAt(data, width, insertOk, k - 1, i);
    }
  }

  /** The step of record i: the reader fails exactly on a record it cannot
      decode; a decoded record's normalised row is inserted when the
      destination accepts it, and otherwise its line number is skipped. */
  lemma StepMeaning(data: seq<CsvRecord>, width: nat, insertOk: InsertOracle, i: nat)
    requires i < |data|
    ensures AllSteps(data, width, insertOk)[i].ReadFails? <==> data[i].Malformed?
    ensures AllSteps(data, width, insertOk)[i].Insert? <==>
      data[i].Record? && insertOk(LineOf(i), NormaliseRow(data[i].fields, width))
    ensures AllSteps(data, width, insertOk)[i].Insert? ==>
      AllSteps(data, width, insertOk)[i].row == NormaliseRow(data[i].fields, width)
    ensures AllSteps(data, width, insertOk)[i].Skip? ==> AllSteps(data, width, insertOk)[i].line == LineOf(i)
  {
    StepsAt(data, width, insertOk, |data|, i);
  }

  lemma StepFails(data: seq<CsvRecord>, width: nat, insertOk: InsertOracle, k: nat)
    requires k < |data|
    ensures AllSteps(data, width, insertOk)[k].ReadFails? <==> data[k].Malformed?
  {
    StepsAt(data, width, insertOk, |data|, k);
  }

  lemma StepInserts(data: seq<CsvRecord>, width: nat, insertOk: InsertOracle, k: nat, row: Row)
    requires k < |data| && data[k].Record? && row == NormaliseRow(data[k].fields, width)
    requires insertOk(LineOf(k), row)
    ensures AllSteps(data, width, insertOk)[k] == Insert(row)
  {
    StepsAt(data, width, insertOk, |data|, k);
  }

  lemma StepSkips(data: seq<CsvRecord>, width: nat, insertOk: InsertOracle, k: nat, row: Row)
    requires k < |data| && data[k].Record? && row == NormaliseRow(data[k].fields, width)
    requires !insertOk(LineOf(k), row)
    ensures AllSteps(data, width, insertOk)[k] == Skip(LineOf(k))
  {
    StepsAt(data, width, insertOk, |data|, k);
  }

  /** Every row the steps insert has exactly `width` fields. */
  predicate InsertsFit(steps: seq<Step>, width: nat) {
    forall i :: 0 <= i < |steps| && steps[i].Insert? ==> |steps[i].row| == width
  }

  /** Every row has exactly `width` fields. */
  predicate RowsFit(rows: seq<Row>, width: nat) {
    forall n :: 0 <= n < |rows| ==> |rows[n]| == width
  }

  /** Each skip is logged under its own record's line number. */
  predicate SkipsAtOwnLine(steps: seq<Step>) {
    forall i :: 0 <= i < |steps| && steps[i].Skip? ==> steps[i].line == LineOf(i)
  }

  /** Every row inserted has the schema's width, and every skip carries its
      record's line number. */
  lemma AllStepsShape(data: seq<CsvRecord>, width: nat, insertOk: InsertOracle)
    ensures InsertsFit(AllSteps(data, width, insertOk), width)
    ensures SkipsAtOwnLine(AllSteps(data, width, insertOk))
  {
    var steps := AllSteps(data, width, insertOk);
    forall i | 0 <= i < |steps|
      ensures steps[i].Insert? ==> |steps[i].row| == width
      ensures steps[i].Skip? ==> steps[i].line == LineOf(i)
    {
      StepMeaning(data, width, insertOk, i);
      if steps[i].Insert? {
        NormaliseRowShape(data[i].fields, width);
      }
    }
  }

  /** The rows inserted over the first k steps. */
  function Inserted(steps: seq<Step>, k: nat): (rows: seq<Row>)
    requires k <= |steps|
    ensures |rows| <= k
  {
    if k == 0 then []
    else Inserted(steps, k - 1) + (if steps[k - 1].Insert? then [steps[k - 1].row] else [])
  }

  /** The line numbers skipped over the first k steps. */
  function Skipped(steps: seq<Step>, k: nat): (lines: seq<nat>)
    requires k <= |steps|
  {
    if k == 0 then []
    else Skipped(steps, k - 1) + (if steps[k - 1].Skip? then [steps[k - 1].line] else [])
  }

  /** The index of the step at which the loop leaves, looking from k on: the
      end of the data, a record the reader fails on, or the first record read
      once the cap has been reached. */
  function StopAt(steps: seq<Step>, limit: Option<int>, k: nat): (j: nat)
    requires k <= |steps|
    ensures k <= j <= |steps|
    decreases |steps| - k
  {
    if k == |steps| || steps[k].ReadFails? || CapReached(limit, |Inserted(steps, k)|) then k
    else StopAt(steps, limit, k + 1)
  }

  /** At most the first ten skipped rows are reported. */
  function FirstTen(lines: seq<nat>): seq<nat> {
    if |lines| <= 10 then lines else lines[..10]
  }

  lemma FirstTenSnoc(lines: seq<nat>, line: nat)
    ensures FirstTen(lines + [line]) == if |lines| < 10 then FirstTen(lines) + [line] else FirstTen(lines)
  {
    if |lines| >= 10 {
      assert (lines + [line])[..10] == lines[..10];
    }
  }

  /** What the import loop leaves behind: either the CSV reader raised on a
      record (the exception leaves the loop and the table's load is rolled
      back), or the rows inserted, the `row_count` and `error_count`
      counters, and the line numbers of the skipped rows that were reported. */
  datatype ImportResult =
    | ReaderFailed(line: nat)
    | Imported(rows: seq<Row>, rowCount: nat, errorCount: nat, warnings: seq<nat>)

  /** The import loop's outcome over a run of steps. */
  function ImportSteps(steps: seq<Step>, limit: Option<int>): ImportResult {
    var j := StopAt(steps, limit, 0);
    if j < |steps| && steps[j].ReadFails? then ReaderFailed(LineOf(j))
    else
      var rows := Inserted(steps, j);
      var skipped := Skipped(steps, j);
      Imported(rows, |rows|, |skipped|, FirstTen(skipped))
  }

  /** The import loop's outcome, as a function of its inputs. */
  function Import(data: seq<CsvRecord>, width: nat, limit: Option<int>, insertOk: InsertOracle): ImportResult {
    ImportSteps(AllSteps(data, width, insertOk), limit)
  }

  /** Where the loop leaves at step k, the import's outcome is read off the
      state at k. */
  lemma ImportLeavesAt(steps: seq<Step>, limit: Option<int>, k: nat)
    requires k <= |steps| && StopAt(steps, limit, 0) == StopAt(steps, limit, k)
    requires k == |steps| || steps[k].ReadFails? || CapReached(limit, |Inserted(steps, k)|)
    ensures k < |steps| && steps[k].ReadFails? ==> ImportSteps(steps, limit) == ReaderFailed(LineOf(k))
    ensures !(k < |steps| && steps[k].ReadFails?) ==>
      ImportSteps(steps, limit) ==
      Imported(Inserted(steps, k), |Inserted(steps, k)|, |Skipped(steps, k)|, FirstTen(Skipped(steps, k)))
  {
  }

  lemma StopAtNext(steps: seq<Step>, limit: Option<int>, k: nat)
    requires k < |steps| && !steps[k].ReadFails? && !CapReached(limit, |Inserted(steps, k)|)
    ensures StopAt(steps, limit, k) == StopAt(steps, limit, k + 1)
  {
  }

  lemma InsertStep(steps: seq<Step>, k: nat, row: Row)
    requires k < |steps| && steps[k] == Insert(row)
    ensures Inserted(steps, k + 1) == Inserted(steps, k) + [row]
    ensures Skipped(steps, k + 1) == Skipped(steps, k)
  {
  }

  lemma SkipStep(steps: seq<Step>, k: nat, line: nat)
    requires k < |steps| && steps[k] == Skip(line)
    ensures Inserted(steps, k + 1) == Inserted(steps, k)
    ensures Skipped(steps, k + 1) == Skipped(steps, k) + [line]
  {
  }

  /** One decoded record through the loop body: the row is normalised and
      offered to the database; the insert either succeeds or is skipped. */
  method InsertRecord(data: seq<CsvRecord>, width: nat, insertOk: InsertOracle, k: nat)
    returns (processed: Row, inserted: bool)
    requires k < |data| && data[k].Record?
    ensures AllSteps(data, width, insertOk)[k] == if inserted then Insert(processed) else Skip(LineOf(k))
  {
    processed := CleanRow(data[k].fields, width);
    inserted := insertOk(k + 2, processed);
    if inserted {
      StepInserts(data, width, insertOk, k, processed);
    } else {
      StepSkips(data, width, insertOk, k, processed);
    }
  }

  /** The row import loop of `export_table`. */
  method ImportRows(data: seq<CsvRecord>, width: nat, limit: Option<int>, insertOk: InsertOracle)
    returns (result: ImportResult)
    ensures result == Import(data, width, limit, insertOk)
  {
    ghost var steps := AllSteps(data, width, insertOk);
    var rows: seq<Row> := [];
    var rowCount, errorCount := 0, 0;
    var warnings: seq<nat> := [];
    ghost var skipped: seq<nat> := [];
    var k := 0;
    while k < |data|
      invariant k <= |data|
      invariant StopAt(steps, limit, 0) == StopAt(steps, limit, k)
      invariant rows == Inserted(steps, k) && rowCount == |rows|
      invariant skipped == Skipped(steps, k)
      invariant errorCount == |skipped| && warnings == FirstTen(skipped)
    {
      var lineNum := k + 2;
      StepFails(data, width, insertOk, k);
      if data[k].Malformed? {
        ImportLeavesAt(steps, limit, k);
        return ReaderFailed(lineNum);
      }
      if limit.Some? && limit.value != 0 && rowCount >= limit.value {
        break;
      }
      StopAtNext(steps, limit, k);
      var processed, inserted := InsertRecord(data, width, insertOk, k);
      if inserted {
        InsertStep(steps, k, processed);
        rows := rows + [processed];
        rowCount := rowCount + 1;
      } else {
        SkipStep(steps, k, lineNum);
        FirstTenSnoc(skipped, lineNum);
        skipped := skipped + [lineNum];
        errorCount := errorCount + 1;
        if errorCount <= 10 {
          warnings := warnings + [lineNum];
        }
      }
      k := k + 1;
    }
    ImportLeavesAt(steps, limit, k);
    result := Imported(rows, rowCount, errorCount, warnings);
  }

  /** Rows inserted from steps that insert rows of the schema's width have
      that width. */
  lemma {:induction false} InsertedFit(steps: seq<Step>, width: nat, k: nat)
    requires k <= |steps| && InsertsFit(steps, width)
    ensures RowsFit(Inserted(steps, k), width)
  {
    if k > 0 {
      InsertedFit(steps, width, k - 1);
      var prev := Inserted(steps, k - 1);
      var rows := Inserted(steps, k);
      forall n | 0 <= n < |rows|
        ensures |rows[n]| == width
      {
        if n < |prev| {
          assert rows[n] == prev[n];
        }
      }
    }
  }

  /** Over steps where the reader did not fail, every record is either
      inserted or skipped. */
  lemma {:induction false} InsertedSkippedCount(steps: seq<Step>, k: nat)
    requires k <= |steps|
    requires forall i :: 0 <= i < k ==> !steps[i].ReadFails?
    ensures |Inserted(steps, k)| + |Skipped(steps, k)| == k
  {
    if k > 0 {
      InsertedSkippedCount(steps, k - 1);
    }
  }

  /** Each of `lines` is the line number of one of the first k steps, a
      skip, and the numbers rise. */
  predicate SkipLines(steps: seq<Step>, k: nat, lines: seq<nat>)
    requires k <= |steps|
  {
    forall n :: 0 <= n < |lines| ==>
      && 2 <= lines[n] < k + 2
      && steps[lines[n] - 2] == Skip(lines[n])
      && (n > 0 ==> lines[n - 1] < lines[n])
  }

  lemma SkipLinesExtend(steps: seq<Step>, k: nat, lines: seq<nat>)
    requires k < |steps| && SkipLines(steps, k, lines) && steps[k] == Skip(LineOf(k))
    ensures SkipLines(steps, k + 1, lines + [LineOf(k)])
  {
    var all := lines + [LineOf(k)];
    forall n | 0 <= n < |all|
      ensures 2 <= all[n] < k + 3 && steps[all[n] - 2] == Skip(all[n])
      ensures n > 0 ==> all[n - 1] < all[n]
    {
      if n > 0 {
        assert all[n - 1] == lines[n - 1];
      }
      if n < |lines| {
        assert all[n] == lines[n];
      }
    }
  }

  /** The skipped line numbers are those of the skips, in reading order. */
  lemma {:induction false} SkippedLines(steps: seq<Step>, k: nat)
    requires k <= |steps| && SkipsAtOwnLine(steps)
    ensures SkipLines(steps, k, Skipped(steps, k))
  {
    if k > 0 {
      SkippedLines(steps, k - 1);
      if steps[k - 1].Skip? {
        SkipLinesExtend(steps, k - 1, Skipped(steps, k - 1));
      }
    }
  }

  /** Every skipped line number is that of a record the reader decoded and
      whose processed row the destination refused, and the numbers rise. */
  lemma SkippedRefused(data: seq<CsvRecord>, width: nat, insertOk: InsertOracle, k: nat)
    requires k <= |data|
    ensures var lines := Skipped(AllSteps(data, width, insertOk), k);
      forall n :: 0 <= n < |lines| ==>
        && 2 <= lines[n] < k + 2
        && data[lines[n] - 2].Record?
        && !insertOk(lines[n], NormaliseRow(data[lines[n] - 2].fields, width))
        && (n > 0 ==> lines[n - 1] < lines[n])
  {
    var steps := AllSteps(data, width, insertOk);
    AllStepsShape(data, width, insertOk);
    SkippedLines(steps, k);
    var lines := Skipped(steps, k);
    forall n | 0 <= n < |lines|
      ensures data[lines[n] - 2].Record? && !insertOk(lines[n], NormaliseRow(data[lines[n] - 2].fields, width))
    {
      SkipRefused(data, width, insertOk, lines[n] - 2);
    }
  }

  lemma SkipRefused(data: seq<CsvRecord>, width: nat, insertOk: InsertOracle, i: nat)
    requires i < |data| && AllSteps(data, width, insertOk)[i].Skip?
    ensures data[i].Record? && !insertOk(LineOf(i), NormaliseRow(data[i].fields, width))
  {
    StepMeaning(data, width, insertOk, i);
  }

  /** The loop reads every step from k up to where it stops: none is a reader
      failure and none was read with the cap reached; at the stopping point
      the data has ended, the reader fails, or the cap is reached. */
  lemma {:induction false} StopAtSpan(steps: seq<Step>, limit: Option<int>, k: nat)
    requires k <= |steps|
    ensures var j := StopAt(steps, limit, k);
      && (forall i :: k <= i < j ==> !steps[i].ReadFails? && !CapReached(limit, |Inserted(steps, i)|))
      && (j == |steps| || steps[j].ReadFails? || CapReached(limit, |Inserted(steps, j)|))
    decreases |steps| - k
  {
    if !(k == |steps| || steps[k].ReadFails? || CapReached(limit, |Inserted(steps, k)|)) {
      StopAtSpan(steps, limit, k + 1);
    }
  }

  /** The counters agree with what was inserted and skipped: `row_count` is
      the number of rows in the table, `row_count + error_count` records were
      consumed (no more than there are), and at most ten skipped rows are
      reported, the first ones. */
  lemma ImportCounts(steps: seq<Step>, limit: Option<int>)
    requires ImportSteps(steps, limit).Imported?
    ensures var r := ImportSteps(steps, limit);
      && r.rowCount == |r.rows|
      && r.rowCount + r.errorCount == StopAt(steps, limit, 0) <= |steps|
      && |r.warnings| == (if r.errorCount <= 10 then r.errorCount else 10)
      && (forall n :: 0 <= n < |r.warnings| ==> r.warnings[n] == Skipped(steps, StopAt(steps, limit, 0))[n])
  {
    var j := StopAt(steps, limit, 0);
    StopAtSpan(steps, limit, 0);
    InsertedSkippedCount(steps, j);
  }

  /** Steps that insert rows of the schema's width leave a table of rows of
      that width. */
  lemma ImportFits(steps: seq<Step>, limit: Option<int>, width: nat)
    requires ImportSteps(steps, limit).Imported? && InsertsFit(steps, width)
    ensures RowsFit(ImportSteps(steps, limit).rows, width)
  {
    InsertedFit(steps, width, StopAt(steps, limit, 0));
  }

  /** A truthy cap bounds the number of rows imported (a negative cap imports
      nothing). */
  lemma ImportCapped(steps: seq<Step>, limit: Option<int>)
    requires ImportSteps(steps, limit).Imported?
    requires limit.Some? && limit.value != 0
    ensures ImportSteps(steps, limit).rowCount <= if limit.value < 0 then 0 else limit.value
  {
    var j := StopAt(steps, limit, 0);
    StopAtSpan(steps, limit, 0);
    if j > 0 {
      assert !CapReached(limit, |Inserted(steps, j - 1)|);
    }
  }

  /** The import leaves before the end of the data only when the cap has
      been reached. */
  lemma ImportStopsAtCap(steps: seq<Step>, limit: Option<int>)
    requires ImportSteps(steps, limit).Imported?
    ensures var r := ImportSteps(steps, limit);
      r.rowCount + r.errorCount < |steps| ==> CapReached(limit, r.rowCount)
  {
    var j := StopAt(steps, limit, 0);
    StopAtSpan(steps, limit, 0);
    InsertedSkippedCount(steps, j);
  }

  /** With a cap of None or 0 every record is consumed, unless the reader
      fails. */
  lemma ImportUnlimited(steps: seq<Step>, limit: Option<int>)
    requires limit.None? || limit.value == 0
    requires ImportSteps(steps, limit).Imported?
    ensures var r := ImportSteps(steps, limit);
      r.rowCount + r.errorCount == |steps|
  {
    ImportStopsAtCap(steps, limit);
    ImportCounts(steps, limit);
  }

  /** The reader fails exactly when a record it cannot decode is reached
      before the import stops; the failure is reported with that record's
      line number, and every record before it was decoded. */
  lemma ImportReaderFailure(data: seq<CsvRecord>, width: nat, limit: Option<int>, insertOk: InsertOracle)
    ensures var r := Import(data, width, limit, insertOk);
      r.ReaderFailed? ==>
        && 2 <= r.line < |data| + 2
        && data[r.line - 2].Malformed?
        && (forall i :: 0 <= i < r.line - 2 ==> data[i].Record?)
    ensures (forall i :: 0 <= i < |data| ==> data[i].Record?) ==> Import(data, width, limit, insertOk).Imported?
  {
    var steps := AllSteps(data, width, insertOk);
    var j := StopAt(steps, limit, 0);
    StopAtSpan(steps, limit, 0);
    forall i | 0 <= i < j
      ensures data[i].Record?
    {
      StepMeaning(data, width, insertOk, i);
    }
    if j < |data| {
      StepMeaning(data, width, insertOk, j);
    }
  }

  /** Refused rows do not count toward the cap: when every insert is refused,
      every record is consumed and skipped whatever the non-negative cap. */
  lemma ImportAllRefused(data: seq<CsvRecord>, width: nat, limit: Option<int>, insertOk: InsertOracle)
    requires forall i :: 0 <= i < |data| ==> data[i].Record?
    requires forall n, row :: !insertOk(n, row)
    requires limit.None? || limit.value >= 0
    ensures var r := Import(data, width, limit, insertOk);
      r.Imported? && r.rows == [] && r.rowCount == 0 && r.errorCount == |data|
  {
    var steps := AllSteps(data, width, insertOk);
    forall i | 0 <= i < |steps|
      ensures steps[i].Skip?
    {
      StepMeaning(data, width, insertOk, i);
    }
    var j := StopAt(steps, limit, 0);
    StopAtSpan(steps, limit, 0);
    InsertedNone(steps, j);
    InsertedSkippedCount(steps, j);
  }

  lemma {:induction false} InsertedNone(steps: seq<Step>, k: nat)
    requires k <= |steps|
    requires forall i :: 0 <= i < |steps| ==> steps[i].Skip?
    ensures Inserted(steps, k) == []
  {
    if k > 0 {
      InsertedNone(steps, k - 1);
    }
  }

  /** When every record decodes and every insert succeeds, a positive cap
      imports exactly `min(cap, number of records)` rows. */
  lemma ImportAllAccepted(data: seq<CsvRecord>, width: nat, cap: nat, insertOk: InsertOracle)
    requires forall i :: 0 <= i < |data| ==> data[i].Record?
    requires forall n, row :: insertOk(n, row)
    requires cap > 0
    ensures var r := Import(data, width, Some(cap), insertOk);
      r.Imported? && r.errorCount == 0 && r.rowCount == if cap < |data| then cap else |data|
  {
    var steps := AllSteps(data, width, insertOk);
    forall i | 0 <= i < |steps|
      ensures steps[i].Insert?
    {
      StepMeaning(data, width, insertOk, i);
    }
    var limit := Some(cap);
    var j := StopAt(steps, limit, 0);
    StopAtSpan(steps, limit, 0);
    InsertedAll(steps, j);
    InsertedSkippedCount(steps, j);
    if j < |data| {
      assert CapReached(limit, |Inserted(steps, j)|);
    } else if cap < |data| {
      InsertedAll(steps, cap);
      assert false;
    }
  }

  lemma {:induction false} InsertedAll(steps: seq<Step>, k: nat)
    requires k <= |steps|
    requires forall i :: 0 <= i < |steps| ==> steps[i].Insert?
    ensures |Inserted(steps, k)| == k
  {
    if k > 0 {
      InsertedAll(steps, k - 1);
    }
  }
}
