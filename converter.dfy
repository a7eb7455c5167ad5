/**
  `MDBToSQLiteConverter.list_tables`, `export_table` and `convert`: which
  tables are converted, how the `--fts-columns` text becomes a column
  policy, and what becomes of each table.

  The mdbtools programs are not run: what they print is an input (`None`
  where the program exits with an error), and the SQLite engine's verdicts
  on the CREATE TABLE, each INSERT and the FTS5 statements are inputs too.
 */
module Converter {
  import opened Strings
  import opened Optional
  import opened SchemaReader
  import opened TableLoader
  import opened FtsIndex

  /** One line of `mdb-tables -1` output as a table name, if it is not blank. */
  function TableName(line: string): Option<string> {
    var name := Strip(line);
    if name != "" then Some(name) else None
  }

  /** The table names in a `mdb-tables -1` listing: its lines, stripped, with
      blank ones dropped. */
  function ListTables(stdout: string): (tables: seq<string>) {
    FilterMap(Split(Strip(stdout), '\n'), TableName)
  }

  /** A name that is not empty, holds no newline and has no surrounding
      whitespace. */
  predicate IsCleanName(t: string) {
    t != [] && '\n' !in t && !IsSpace(t[0]) && !IsSpace(t[|t| - 1])
  }

  /** Every listed name is non-empty, holds no newline and has no surrounding
      whitespace. */
  lemma ListTablesClean(stdout: string)
    ensures forall t :: t in ListTables(stdout) ==> IsCleanName(t)
  {
    var lines := Split(Strip(stdout), '\n');
    forall i | 0 <= i < |lines|
      ensures TableName(lines[i]).Some? ==> IsCleanName(TableName(lines[i]).value)
    {
      TableNameStripped(lines[i]);
    }
    FilterMapKeeps(lines, TableName, IsCleanName);
  }

  lemma TableNameStripped(line: string)
    requires '\n' !in line
    ensures TableName(line).Some? ==> IsCleanName(TableName(line).value)
  {
  }

  lemma {:induction false} TableNamesKept(names: seq<string>)
    requires forall i :: 0 <= i < |names| ==> IsCleanName(names[i])
    ensures FilterMap(names, TableName) == names
    decreases |names|
  {
    if names != [] {
      var init, last := names[..|names| - 1], names[|names| - 1];
      assert names == init + [last];
      TableNamesKept(init);
      TableNameClean(last);
      FilterMapSnoc(init, last, TableName);
    }
  }

  lemma TableNameClean(t: string)
    requires IsCleanName(t)
    ensures TableName(t) == Some(t)
  {
  }

  /** A listing of clean names, one per line with a final newline, lists
      exactly those names in order. */
  lemma ListTablesRoundTrip(names: seq<string>)
    requires names != []
    requires forall i :: 0 <= i < |names| ==> IsCleanName(names[i])
    ensures ListTables(Join(names, "\n") + "\n") == names
  {
    var body := Join(names, "\n");
    JoinEnds(names, "\n");
    StripFinalNewline(body);
    SplitJoin(names, '\n');
    TableNamesKept(names);
  }

  lemma StripFinalNewline(body: string)
    requires body != [] && !IsSpace(body[0]) && !IsSpace(body[|body| - 1])
    ensures Strip(body + "\n") == body
  {
    var out := body + "\n";
    assert out[0] == body[0];
    assert out[..|out| - 1] == body;
  }

  /** The `--fts-columns` text as a policy: `none` (in any letter case) asks
      for no index, `all` (in any letter case) for the sentinel `['all']`,
      and anything else for its comma-separated pieces, stripped, in order. */
  function ParsePolicy(text: string): (policy: Option<seq<string>>)
    ensures policy.Some? ==> policy.value != []
  {
    if Lower(text) == "none" then None
    else if Lower(text) == "all" then Some(["all"])
    else Some(Map(Split(text, ','), Strip))
  }

  /** No index is asked for exactly when the text reads `none` in any case. */
  lemma ParsePolicyNone(text: string)
    ensures ParsePolicy(text).None? <==> Lower(text) == "none"
  {
  }

  /** The `['all']` sentinel comes out exactly when the text reads `all` in any
      case, or is ` all ` or the like: a single piece that strips to `all`. */
  lemma ParsePolicyAll(text: string)
    ensures ParsePolicy(text) == Some(["all"]) <==>
      Lower(text) == "all" || (',' !in text && Strip(text) == "all")
  {
    if Lower(text) == "none" {
      NoneIsNotAll(text);
    } else if Lower(text) != "all" {
      PiecesAll(text);
    }
  }

  lemma NoneIsNotAll(text: string)
    requires Lower(text) == "none"
    ensures Strip(text) != "all"
  {
    assert |text| == 4;
    assert Lower(text)[0] == 'n' && Lower(text)[3] == 'e';
    assert Strip(text) == text;
  }

  /** The stripped pieces are the one piece `all` exactly when the text has no
      comma and strips to `all`. */
  lemma PiecesAll(text: string)
    ensures Map(Split(text, ','), Strip) == ["all"] <==> ',' !in text && Strip(text) == "all"
  {
    SplitSingle(text, ',');
    if ',' !in text {
      MapAt([text], Strip, 0);
      assert Map([text], Strip) == [Strip(text)];
    }
  }

  /** A comma-joined list of names that are comma-free and have no
      surrounding whitespace parses back to the names, unless it reads `none`
      or `all`. */
  lemma ParsePolicyRoundTrip(names: seq<string>)
    requires names != []
    requires forall i :: 0 <= i < |names| ==> ',' !in names[i]
    requires forall i :: 0 <= i < |names| ==> names[i] == [] || (!IsSpace(names[i][0]) && !IsSpace(names[i][|names[i]| - 1]))
    requires Lower(Join(names, ",")) != "none" && Lower(Join(names, ",")) != "all"
    ensures ParsePolicy(Join(names, ",")) == Some(names)
  {
    SplitJoin(names, ',');
    MapAll(names, Strip);
    forall i | 0 <= i < |names| ensures Map(names, Strip)[i] == names[i] {
      assert Strip(names[i]) == names[i];
    }
    assert Map(names, Strip) == names;
  }

  /** What the mdbtools programs print for one table, and what the database
      engine does with it. */
  datatype TableSource = TableSource(
    schemaDump: Option<string>,    // `mdb-schema` output; None when it exits with an error
    records: seq<CsvRecord>,       // the records `mdb-export` output decodes to, header first
    createOk: bool,                // DROP TABLE and CREATE TABLE succeed
    insertOk: InsertOracle,        // the verdict on each INSERT
    indexOk: bool)                 // the FTS5 DROP, CREATE VIRTUAL TABLE and rebuild succeed

  /** The converter's settings. */
  datatype Settings = Settings(tokenizer: string, prefixIndex: Option<seq<int>>, rowLimit: Option<int>)

  /** Where a table's load raised and was rolled back. */
  datatype Stage = CreateTable | ReadRecord(line: nat) | CreateIndex

  /** What becomes of one table. */
  datatype TableOutcome =
    | SchemaToolFailed     // `mdb-schema` failed; `convert` logs it and goes on
    | NoSchema             // no column could be read; an error is logged
    | NoExport             // `mdb-export` produced no output; an error is logged
    | RolledBack(stage: Stage)
    | Committed(columns: seq<Column>, rows: seq<Row>, errorCount: nat, warnings: seq<nat>, index: IndexPlan)

  /** The database was opened for this table (the output file then exists). */
  predicate Connected(outcome: TableOutcome) {
    outcome.RolledBack? || outcome.Committed?
  }

  /** `export_table` once the schema is known and `mdb-export` produced
      output: the database is opened, the table created, the header and rows
      read, and the index built, as the engine's verdicts allow. */
  function LoadSpec(columns: seq<Column>, source: TableSource, table: string, policy: Option<seq<string>>,
                    settings: Settings): (outcome: TableOutcome)
    requires source.records != []
    ensures Connected(outcome)
  {
    if !source.createOk then RolledBack(CreateTable)
    else if source.records[0].Malformed? then RolledBack(ReadRecord(1))
    else
      var imported := Import(source.records[1..], |columns|, settings.rowLimit, source.insertOk);
      if imported.ReaderFailed? then RolledBack(ReadRecord(imported.line))
      else
        var plan := PlanIndex(table, columns, policy, imported.rowCount, settings.tokenizer, settings.prefixIndex);
        if plan.Index? && !source.indexOk then RolledBack(CreateIndex)
        else Committed(columns, imported.rows, imported.errorCount, imported.warnings, plan)
  }

  /** `export_table`, as a function of what the tools print and the engine's
      verdicts. */
  function ExportSpec(source: TableSource, table: string, policy: Option<seq<string>>, settings: Settings): TableOutcome {
    if source.schemaDump.None? then SchemaToolFailed
    else
      var schema := ParseSchema(source.schemaDump.value);
      if schema == [] then NoSchema
      else if source.records == [] then NoExport
      else LoadSpec(Sanitize(schema), source, table, policy, settings)
  }

  /** Exports one table: reads its schema, sanitises it, imports its rows and
      builds its index, as the engine's verdicts allow. */
  method ExportTable(source: TableSource, table: string, policy: Option<seq<string>>, settings: Settings)
    returns (outcome: TableOutcome)
    ensures outcome == ExportSpec(source, table, policy, settings)
  {
    if source.schemaDump.None? {
      return SchemaToolFailed;
    }
    var schema := GetTableSchema(source.schemaDump.value);
    if schema == [] {
      return NoSchema;
    }
    if source.records == [] {
      return NoExport;
    }
    var sanitized := SanitizeSchema(schema);
    if !source.createOk {
      return RolledBack(CreateTable);
    }
    if source.records[0].Malformed? {
      return RolledBack(ReadRecord(1));
    }
    var imported := ImportRows(source.records[1..], |sanitized|, settings.rowLimit, source.insertOk);
    if imported.ReaderFailed? {
      return RolledBack(ReadRecord(imported.line));
    }
    var plan := PlanIndex(table, sanitized, policy, imported.rowCount, settings.tokenizer, settings.prefixIndex);
    if plan.Index? && !source.indexOk {
      return RolledBack(CreateIndex);
    }
    outcome := Committed(sanitized, imported.rows, imported.errorCount, imported.warnings, plan);
  }

  /** A committed load has the given columns, rows of exactly their width,
      fewer rows and skipped rows together than records (the header is not
      a row), no more rows than a truthy cap allows, at most ten reported
      skipped rows, and an index only if rows were imported under a
      non-empty policy. */
  lemma LoadCommitted(columns: seq<Column>, source: TableSource, table: string, policy: Option<seq<string>>,
                      settings: Settings) returns (r: TableOutcome)
    requires source.records != []
    ensures r == LoadSpec(columns, source, table, policy, settings)
    ensures r.Committed? ==>
      && r.columns == columns
      && RowsFit(r.rows, |columns|)
      && |r.rows| + r.errorCount < |source.records|
      && (settings.rowLimit.Some? && settings.rowLimit.value != 0 ==>
            |r.rows| <= if settings.rowLimit.value < 0 then 0 else settings.rowLimit.value)
      && |r.warnings| <= 10
      && (!r.index.NotRequested? ==> r.rows != [] && policy.Some? && policy.value != [])
  {
    r := LoadSpec(columns, source, table, policy, settings);
    if r.Committed? {
      var data := source.records[1..];
      var limit := settings.rowLimit;
      var steps := AllSteps(data, |columns|, source.insertOk);
      var imported := ImportSteps(steps, limit);
      assert imported.Imported?;
      var plan := PlanIndex(table, columns, policy, imported.rowCount, settings.tokenizer, settings.prefixIndex);
      assert r == Committed(columns, imported.rows, imported.errorCount, imported.warnings, plan);
      ImportCounts(steps, limit);
      AllStepsShape(data, |columns|, source.insertOk);
      ImportFits(steps, limit, |columns|);
      if limit.Some? && limit.value != 0 {
        ImportCapped(steps, limit);
      }
    }
  }

  /** A committed table has the sanitised columns of its schema, at least one,
      with everything `LoadCommitted` states about its rows and index. */
  lemma ExportCommitted(source: TableSource, table: string, policy: Option<seq<string>>, settings: Settings)
    returns (r: TableOutcome)
    ensures r == ExportSpec(source, table, policy, settings)
    ensures r.Committed? ==>
      && source.schemaDump.Some?
      && r.columns == Sanitize(ParseSchema(source.schemaDump.value)) && r.columns != []
      && (forall i :: 0 <= i < |r.columns| ==> IsSanitized(r.columns[i]))
      && RowsFit(r.rows, |r.columns|)
      && |r.rows| + r.errorCount < |source.records|
      && (settings.rowLimit.Some? && settings.rowLimit.value != 0 ==>
            |r.rows| <= if settings.rowLimit.value < 0 then 0 else settings.rowLimit.value)
      && |r.warnings| <= 10
      && (!r.index.NotRequested? ==> r.rows != [] && policy.Some? && policy.value != [])
  {
    r := ExportSpec(source, table, policy, settings);
    if source.schemaDump.Some? && ParseSchema(source.schemaDump.value) != [] && source.records != [] {
      var columns := Sanitize(ParseSchema(source.schemaDump.value));
      ExportLoads(source, table, policy, settings);
      var loaded := LoadCommitted(columns, source, table, policy, settings);
    }
  }

  lemma ExportLoads(source: TableSource, table: string, policy: Option<seq<string>>, settings: Settings)
    requires source.schemaDump.Some? && ParseSchema(source.schemaDump.value) != [] && source.records != []
    ensures ExportSpec(source, table, policy, settings) ==
      LoadSpec(Sanitize(ParseSchema(source.schemaDump.value)), source, table, policy, settings)
  {
  }

  /** The database is opened for a table exactly when its schema was read and
      `mdb-export` produced output. */
  lemma ExportConnects(source: TableSource, table: string, policy: Option<seq<string>>, settings: Settings)
    ensures Connected(ExportSpec(source, table, policy, settings)) <==>
      source.schemaDump.Some? && ParseSchema(source.schemaDump.value) != [] && source.records != []
  {
  }

  /** What `convert` ends with: the table listing failed, or every table was
      processed in turn, after which the output file's size is read, which
      raises when the file does not exist. */
  datatype ConvertOutcome =
    | ListingFailed
    | Completed(results: seq<(string, TableOutcome)>)
    | OutputMissing(results: seq<(string, TableOutcome)>)

  /** The tables to convert: the requested ones if any, else the listing. */
  function TableList(requested: seq<string>, listing: Option<string>): Option<seq<string>> {
    if requested != [] then Some(requested)
    else if listing.Some? then Some(ListTables(listing.value))
    else None
  }

  /** Each table paired with its outcome, in the order the tables are given. */
  function Outcomes(tables: seq<string>, outcomeOf: string -> TableOutcome): (results: seq<(string, TableOutcome)>)
    ensures |results| == |tables|
    ensures forall i :: 0 <= i < |tables| ==> results[i] == (tables[i], outcomeOf(tables[i]))
  {
    seq(|tables|, i requires 0 <= i < |tables| => (tables[i], outcomeOf(tables[i])))
  }

  lemma OutcomesSnoc(tables: seq<string>, i: nat, outcomeOf: string -> TableOutcome)
    requires i < |tables|
    ensures Outcomes(tables[..i + 1], outcomeOf) == Outcomes(tables[..i], outcomeOf) + [(tables[i], outcomeOf(tables[i]))]
  {
  }

  /** The outcome of exporting each table under the same policy and settings. */
  function ExportAll(tables: seq<string>, policy: Option<seq<string>>, settings: Settings,
                     source: string -> TableSource): seq<(string, TableOutcome)> {
    Outcomes(tables, t => ExportSpec(source(t), t, policy, settings))
  }

  /** Some table got as far as opening the database. */
  predicate AnyConnected(results: seq<(string, TableOutcome)>) {
    exists i :: 0 <= i < |results| && Connected(results[i].1)
  }

  lemma AnyConnectedSnoc(results: seq<(string, TableOutcome)>, r: (string, TableOutcome))
    ensures AnyConnected(results + [r]) <==> AnyConnected(results) || Connected(r.1)
  {
    var all := results + [r];
    assert all[|results|] == r;
    if AnyConnected(results) {
      var i :| 0 <= i < |results| && Connected(results[i].1);
      assert all[i] == results[i];
    }
  }

  /** `convert`, as a function of its inputs. */
  function ConvertSpec(requested: seq<string>, listing: Option<string>, policyText: string, settings: Settings,
                       source: string -> TableSource, outputExisted: bool): ConvertOutcome {
    var tables := TableList(requested, listing);
    if tables.None? then ListingFailed
    else
      var results := ExportAll(tables.value, ParsePolicy(policyText), settings, source);
      if outputExisted || AnyConnected(results) then Completed(results) else OutputMissing(results)
  }

  /** Converts the requested tables, or all listed tables, one after the
      other; a table that fails does not stop the others. */
  method Convert(requested: seq<string>, listing: Option<string>, policyText: string, settings: Settings,
                 source: string -> TableSource, outputExisted: bool) returns (outcome: ConvertOutcome)
    ensures outcome == ConvertSpec(requested, listing, policyText, settings, source, outputExisted)
  {
    var tables: seq<string>;
    if requested != [] {
      tables := requested;
    } else if listing.Some? {
      tables := ListTables(listing.value);
    } else {
      return ListingFailed;
    }
    var policy := ParsePolicy(policyText);
    var results: seq<(string, TableOutcome)> := [];
    var outputExists := outputExisted;
    for i := 0 to |tables|
      invariant results == ExportAll(tables[..i], policy, settings, source)
      invariant outputExists <==> outputExisted || AnyConnected(results)
    {
      var name := tables[i];
      var tableOutcome := ExportTable(source(name), name, policy, settings);
      OutcomesSnoc(tables, i, t => ExportSpec(source(t), t, policy, settings));
      AnyConnectedSnoc(results, (name, tableOutcome));
      results := results + [(name, tableOutcome)];
      outputExists := outputExists || Connected(tableOutcome);
    }
    assert tables[..|tables|] == tables;
    if outputExists {
      outcome := Completed(results);
    } else {
      outcome := OutputMissing(results);
    }
  }

  /** The final size lookup fails exactly when the output file did not exist
      beforehand and no table got as far as opening the database, that is,
      every table failed at its schema or produced no export. */
  lemma ConvertOutputMissing(requested: seq<string>, listing: Option<string>, policyText: string, settings: Settings,
                             source: string -> TableSource, outputExisted: bool)
    requires TableList(requested, listing).Some?
    ensures var tables := TableList(requested, listing).value;
      ConvertSpec(requested, listing, policyText, settings, source, outputExisted).OutputMissing? <==>
        !outputExisted && forall i :: 0 <= i < |tables| ==>
          var s := source(tables[i]);
          s.schemaDump.None? || ParseSchema(s.schemaDump.value) == [] || s.records == []
  {
    var tables := TableList(requested, listing).value;
    var policy := ParsePolicy(policyText);
    forall i | 0 <= i < |tables| {
      ExportConnects(source(tables[i]), tables[i], policy, settings);
    }
  }
}
