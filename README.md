# MDB to SQLite/FTS5 converter — a Dafny model

`scripts/mdb_to_sqlite_fts5.py` converts the tables of a Microsoft Access
(MDB) file into a SQLite database. It optionally builds an FTS5 full-text
index beside each table. For every table the converter does four things:

- It reads the column list out of the `CREATE TABLE` statement that
  `mdb-schema` prints.
- It sanitises the column names and types.
- It loads the rows that `mdb-export` prints as CSV. Each row is padded or
  truncated to the schema's width and each field is cleaned. Rows the
  database refuses are skipped. An optional row cap stops the import early.
- It builds an external-content FTS5 table over the selected columns.

A failure in one table does not stop the run.

This project models that logic in Dafny:

- `Strings` (`strings.dfy`): the Python string operations the converter
  uses. These are `strip`, `rstrip`, `split`, `find`, `rfind`, `in`,
  `upper`, `lower`, `replace` and `str` of an integer. Their contracts say
  what the result is: `strip` and `rstrip` cut only droppable characters
  from the ends and return the slice between them, `replace(c, '')`
  removes `c` piece by piece and keeps everything else in order, `split`
  and `join` invert each other, and `find`/`rfind` give the first/last
  occurrence. `upper` and `lower` map ASCII letters only (see "Left out").
- `Optional` (`optional.dfy`): an `Option` type and two generic sequence
  operations. `Map` models a list comprehension and `FilterMap` a filtered
  comprehension.
- `SchemaReader` (`schema_reader.dfy`): `get_table_schema`. A loop over the
  column lines is proved equal to the function `ParseSchema`.
- `TableLoader` (`table_loader.dfy`): the sanitiser loop, the row cleaner
  and the import loop of `export_table`. The import loop is proved equal to
  the function `Import`. `Import` is defined over a sequence of per-record
  steps, and the cap, count, width and warning properties are proved about
  it.
- `FtsIndex` (`fts_index.dfy`): `_create_fts5_table`'s column selection and
  option list, and the decision whether to build an index at all.
- `Converter` (`converter.dfy`): `list_tables`, the `--fts-columns` policy
  parsing, `export_table` as a whole and the `convert` loop.

The external programs and the database engine are not run. What they
produce becomes an input:

- the text `mdb-tables` and `mdb-schema` print (`None` where the program
  exits with an error);
- the records the CSV reader decodes from `mdb-export`'s output (a record,
  or a reader error);
- the engine's verdicts on `CREATE TABLE`, on each `INSERT` (an oracle on
  the line number and the processed row) and on the FTS5 statements.

Behaviours of the code worth noting:

- A CSV reader error is raised by the loop header `for ... in
  enumerate(csv_reader)`. That is outside the per-row `try`, so it does not
  count as a skipped row: it reaches the `except` at line 292 and the whole
  table's load is rolled back (`ReadRecord` stage).
- The allowed column types are five: INTEGER, TEXT, REAL, BLOB and NUMERIC.
- An explicit FTS column list is used as given, never matched against the
  table's columns. The "no text columns" notice is only reached under `all`:
  a parsed explicit list is never empty. A name that matches no column is
  left to the engine's verdict on the FTS5 statements.
- When no table ever opens the database and the output file did not exist
  beforehand, the final `stat()` at line 405 raises. The model's
  `OutputMissing` outcome records this.
- A failure of `mdb-schema` raises out of `export_table`. `convert` catches
  it and logs it (lines 398-402), so it is its own outcome
  (`SchemaToolFailed`), separate from a schema that could not be parsed.
- `get_table_schema` takes everything between the first `(` and the last
  `)` of `mdb-schema`'s output and reads every line there with two words as
  a column. Should the output hold anything after the table's closing
  parenthesis, such as an index statement, its lines up to the last `)`
  are read as columns too (a line `CREATE INDEX ...` gives a column
  `CREATE` of type `INDEX`). The model reads the output the same way.
- The FTS5 index is built inside the table's transaction, before the
  commit. A failure there rolls back the table's rows too (`CreateIndex`
  stage).

## Model

| member | source | states |
|---|---|---|
| Strings.Trim | scripts/mdb_to_sqlite_fts5.py:161 | `strip(chars)`: the result neither starts nor ends with a dropped character, holds only characters of the input, and an input already free of them at both ends is returned unchanged |
| Strings.TrimSlice | scripts/mdb_to_sqlite_fts5.py:161 | `strip(chars)` returns a slice `s[a:a+len(r)]` of its input, and every character before and after that slice is a dropped one |
| Strings.TrimPadded | scripts/mdb_to_sqlite_fts5.py:267 | a text with neither end droppable, padded on both sides with droppable characters, strips to exactly that text |
| Strings.TrimRight | scripts/mdb_to_sqlite_fts5.py:156 | `rstrip(",")`: the result does not end with a comma, keeps the first character, and holds only characters of the input |
| Strings.TrimRightPrefix | scripts/mdb_to_sqlite_fts5.py:156 | `rstrip(chars)` returns a prefix of its input, and every character cut off after it is a dropped one |
| Strings.TrimEmpty | scripts/mdb_to_sqlite_fts5.py:267 | stripping leaves nothing exactly when every character is one that is stripped |
| Strings.RemoveChar | scripts/mdb_to_sqlite_fts5.py:215 | `replace(c, '')`: the result holds exactly the input's characters other than `c`, and a text without `c` is returned unchanged |
| Strings.RemoveCharAppend | scripts/mdb_to_sqlite_fts5.py:215 | removal on a concatenation is the removals of the two parts, concatenated in order |
| Strings.RemoveCharOne | scripts/mdb_to_sqlite_fts5.py:215 | on one character, removal drops a `c` and keeps any other character |
| Strings.IndexOf | scripts/mdb_to_sqlite_fts5.py:151 | `find`: -1 exactly when the character is absent, else the index of its first occurrence |
| Strings.LastIndexOf | scripts/mdb_to_sqlite_fts5.py:152 | `rfind`: -1 exactly when the character is absent, else the index of its last occurrence |
| Strings.Contains | scripts/mdb_to_sqlite_fts5.py:149 | substring test: true exactly when the text occurs at some position |
| Strings.Slice | scripts/mdb_to_sqlite_fts5.py:154 | `s[lo:hi]` within bounds: for `lo <= hi` the result has `hi - lo` characters and character `i` is `s[lo + i]`; crossed bounds give the empty text |
| Strings.Split | scripts/mdb_to_sqlite_fts5.py:155 | `split(sep)`: at least one piece, no piece holds the separator, and joining the pieces with it gives back the text |
| Strings.SplitJoin | scripts/mdb_to_sqlite_fts5.py:124 | splitting a join of separator-free pieces gives back the pieces |
| Strings.SplitSingle | scripts/mdb_to_sqlite_fts5.py:394 | a split yields one piece exactly when the separator is absent, and that piece is the whole text |
| Strings.SplitOnceWords | scripts/mdb_to_sqlite_fts5.py:159 | `split(maxsplit=1)` yields as many parts as there are words, up to two; its first part is the first word and the first token of the second part is the second word |
| Strings.Token | scripts/mdb_to_sqlite_fts5.py:162 | `split()[0]` of a part that starts with a non-space: a non-empty prefix free of whitespace, followed by whitespace or the end |
| Strings.Upper | scripts/mdb_to_sqlite_fts5.py:162 | `upper()`: same length, no lower-case letter left, and each character equal to the input's up to letter case |
| Strings.Lower | scripts/mdb_to_sqlite_fts5.py:389 | `lower()`: same length, no upper-case letter left, and each character equal to the input's up to letter case |
| Strings.IntToStringRoundTrip | scripts/mdb_to_sqlite_fts5.py:353 | `str` of a prefix length is an integer literal that reads back as the same integer |
| SchemaReader.ParseLine | scripts/mdb_to_sqlite_fts5.py:156-163 | a column entry's type is one non-empty word with no lower-case letter |
| SchemaReader.ParseLineWords | scripts/mdb_to_sqlite_fts5.py:156-163 | a line yields an entry exactly when, stripped of whitespace and trailing commas, it is not blank, not a `--` comment and has two words; the entry is the first word undecorated and the second word upper-cased |
| SchemaReader.ParseSchema | scripts/mdb_to_sqlite_fts5.py:149-154 | no `CREATE TABLE`, no `(` or no `)` gives the empty schema |
| SchemaReader.ParseLinesAppend | scripts/mdb_to_sqlite_fts5.py:155-163 | entries come in line order: the entries of two runs of lines are those of the first followed by those of the second |
| SchemaReader.ReadColumnLines | scripts/mdb_to_sqlite_fts5.py:155-163 | the appending loop over the column lines returns the parsed entries of all lines |
| SchemaReader.GetTableSchema | scripts/mdb_to_sqlite_fts5.py:144-165 | the method returns the schema `ParseSchema` reads from the dump |
| TableLoader.SafeName | scripts/mdb_to_sqlite_fts5.py:215 | a sanitised name holds no `"` and no `'` and has no surrounding whitespace |
| TableLoader.SafeType | scripts/mdb_to_sqlite_fts5.py:217 | a sanitised type is one of the five allowed types, and an allowed type is kept |
| TableLoader.Sanitize | scripts/mdb_to_sqlite_fts5.py:212-218 | sanitising keeps the column count and order, column by column |
| TableLoader.SanitizedColumns | scripts/mdb_to_sqlite_fts5.py:212-218 | every sanitised column is quote-free with an allowed type, and its type is the original when allowed, TEXT otherwise |
| TableLoader.SanitizeSchema | scripts/mdb_to_sqlite_fts5.py:211-218 | the appending loop returns the column-by-column sanitised schema |
| TableLoader.SanitizeIdempotent | scripts/mdb_to_sqlite_fts5.py:211-218 | sanitising a sanitised schema changes nothing |
| TableLoader.Fit | scripts/mdb_to_sqlite_fts5.py:254-258 | the fitted record has exactly the schema's width, holding the record's fields and `''` past its end |
| TableLoader.NormaliseField | scripts/mdb_to_sqlite_fts5.py:262-268 | a kept value is non-empty, holds no NUL and has no surrounding whitespace |
| TableLoader.NormaliseFieldKept | scripts/mdb_to_sqlite_fts5.py:267 | a kept value is the field with its NULs removed and only surrounding whitespace cut: a slice of the NUL-free field with whitespace alone before and after it |
| TableLoader.NormaliseFieldPadded | scripts/mdb_to_sqlite_fts5.py:263-268 | a clean value padded with whitespace on both sides is stored as exactly that value, unless the whole field reads `NULL` |
| TableLoader.NormaliseFieldExample | scripts/mdb_to_sqlite_fts5.py:267-268 | `"  foo  "` is stored as `"foo"` |
| TableLoader.NormaliseFieldNull | scripts/mdb_to_sqlite_fts5.py:263-268 | a field becomes NULL exactly when it is empty, reads `NULL` in any case, or holds only whitespace and NULs |
| TableLoader.NormaliseFieldKeepsClean | scripts/mdb_to_sqlite_fts5.py:263-268 | a clean value is stored unchanged |
| TableLoader.NormaliseRowShape | scripts/mdb_to_sqlite_fts5.py:254-268 | a processed row has exactly the schema's width; field i is the cleaned field i, and padding fields are NULL |
| TableLoader.CleanRow | scripts/mdb_to_sqlite_fts5.py:254-268 | the pad-or-truncate and per-field loop returns the processed row `NormaliseRow` describes |
| TableLoader.StepMeaning | scripts/mdb_to_sqlite_fts5.py:247-280 | a record the reader fails on stops the loop; a decoded record is inserted as its processed row exactly when the engine accepts it, and is otherwise skipped at its own line number |
| TableLoader.AllStepsShape | scripts/mdb_to_sqlite_fts5.py:254-280 | every inserted row has the schema's width and every skip carries its record's line number |
| TableLoader.InsertRecord | scripts/mdb_to_sqlite_fts5.py:253-280 | one decoded record through the loop body: its processed row is inserted or it is skipped, as the step says |
| TableLoader.ImportRows | scripts/mdb_to_sqlite_fts5.py:244-283 | the import loop, with its break on the cap and the reader error leaving it, returns `Import` of its inputs |
| TableLoader.InsertedSkippedCount | scripts/mdb_to_sqlite_fts5.py:270-280 | before a reader error, every record consumed is either imported or skipped: the two counts add up to the records consumed |
| TableLoader.SkippedLines | scripts/mdb_to_sqlite_fts5.py:273-280 | the skipped line numbers rise, lie within the records consumed, and each is a skip at its own record |
| TableLoader.SkippedRefused | scripts/mdb_to_sqlite_fts5.py:270-280 | every skipped line is a decoded record whose processed row the engine refused, in rising order |
| TableLoader.StopAtSpan | scripts/mdb_to_sqlite_fts5.py:247-251 | the loop leaves at the first record that the reader fails on or that finds the cap reached, or at the end |
| TableLoader.ImportCounts | scripts/mdb_to_sqlite_fts5.py:244-283 | `row_count` is the number of rows inserted, imported plus skipped equals the records consumed and never exceeds the records, and the warnings are the first ten skipped lines |
| TableLoader.ImportFits | scripts/mdb_to_sqlite_fts5.py:254-271 | every imported row has the schema's width |
| TableLoader.ImportCapped | scripts/mdb_to_sqlite_fts5.py:248-251 | with a truthy cap, no more rows than the cap are imported (none for a negative cap) |
| TableLoader.ImportStopsAtCap | scripts/mdb_to_sqlite_fts5.py:248-251 | a loop that leaves before the last record without a reader error has reached the cap |
| TableLoader.ImportUnlimited | scripts/mdb_to_sqlite_fts5.py:249 | a cap of None or 0 imposes no limit: every record is imported or skipped |
| TableLoader.ImportReaderFailure | scripts/mdb_to_sqlite_fts5.py:247 | a reader failure is reported at the line of the first record the reader fails on; with no such record the import completes |
| TableLoader.ImportAllRefused | scripts/mdb_to_sqlite_fts5.py:273-280 | when the engine refuses every row, nothing is imported and every record is counted as an error |
| TableLoader.ImportAllAccepted | scripts/mdb_to_sqlite_fts5.py:248-271 | when the engine accepts every row, a positive cap imports the smaller of the cap and the record count, with no errors |
| FtsIndex.TextColumnsMember | scripts/mdb_to_sqlite_fts5.py:331-334 | a name is selected under `all` exactly when some column of that name has a type containing TEXT, VARCHAR or CHAR in upper case |
| FtsIndex.TextColumnsAppend | scripts/mdb_to_sqlite_fts5.py:331-334 | selection keeps schema order |
| FtsIndex.NotTextLike | scripts/mdb_to_sqlite_fts5.py:333 | a type with no lower-case letter, no `X` and no `H` is not text-like |
| FtsIndex.AllowedTypeTextLike | scripts/mdb_to_sqlite_fts5.py:331-334 | among the five sanitised types exactly TEXT is text-like |
| FtsIndex.TextColumnsExample | scripts/mdb_to_sqlite_fts5.py:329-334 | an INTEGER column followed by two TEXT columns selects the two TEXT columns, in order |
| FtsIndex.SelectColumns | scripts/mdb_to_sqlite_fts5.py:329-336 | any list other than `['all']` is used verbatim; under `['all']` the selection is `TextColumns` of the schema, every selected name being a text-like column of it |
| FtsIndex.SettingRoundTrip | scripts/mdb_to_sqlite_fts5.py:346-354 | a `key='value'` option reads back as its key and value |
| FtsIndex.PrefixRoundTrip | scripts/mdb_to_sqlite_fts5.py:352-354 | the prefix option's text splits on spaces into one integer literal per prefix length, in order |
| FtsIndex.FtsOptionsOrder | scripts/mdb_to_sqlite_fts5.py:346-356 | the options are content (the table), content_rowid (`rowid`), tokenize (the tokenizer), then prefix exactly when prefix lengths are configured |
| FtsIndex.PlanIndex | scripts/mdb_to_sqlite_fts5.py:326-356 | no index unless the policy is non-empty and a row was imported; an index is named `<table>_fts` over the non-empty selection with the options `FtsOptions` lists; an empty selection builds none |
| Converter.ListTablesClean | scripts/mdb_to_sqlite_fts5.py:124 | every listed table name is non-empty, holds no newline and has no surrounding whitespace |
| Converter.ListTablesRoundTrip | scripts/mdb_to_sqlite_fts5.py:124 | a listing of clean names, one per line, lists exactly those names in order |
| Converter.ParsePolicy | scripts/mdb_to_sqlite_fts5.py:389-394 | a policy, when there is one, is never an empty list |
| Converter.ParsePolicyNone | scripts/mdb_to_sqlite_fts5.py:389-390 | no index is asked for exactly when the text reads `none` in any case |
| Converter.ParsePolicyAll | scripts/mdb_to_sqlite_fts5.py:391-394 | the `['all']` sentinel results exactly when the text reads `all` in any case or is a single comma-free piece that strips to `all` |
| Converter.PiecesAll | scripts/mdb_to_sqlite_fts5.py:394 | the stripped comma pieces are the single piece `all` exactly when the text has no comma and strips to `all` |
| Converter.ParsePolicyRoundTrip | scripts/mdb_to_sqlite_fts5.py:393-394 | a comma-joined list of trimmed, comma-free names parses back to those names in order, unless it reads `none` or `all` |
| Converter.LoadSpec | scripts/mdb_to_sqlite_fts5.py:207-298 | once the database is opened, the table ends either committed or rolled back |
| Converter.ExportTable | scripts/mdb_to_sqlite_fts5.py:176-300 | the method's outcome for a table is `ExportSpec` of the tools' output and the engine's verdicts |
| Converter.LoadCommitted | scripts/mdb_to_sqlite_fts5.py:244-289 | a committed load has rows of the schema's width, fewer rows plus errors than records, no more rows than a truthy cap, at most ten warnings, and an index only for a non-empty policy with rows imported |
| Converter.ExportCommitted | scripts/mdb_to_sqlite_fts5.py:178-289 | a committed table has the non-empty sanitised schema, allowed types and quote-free names, plus everything `LoadCommitted` states |
| Converter.ExportConnects | scripts/mdb_to_sqlite_fts5.py:178-207 | the database is opened for a table exactly when its schema was read and `mdb-export` produced output |
| Converter.AnyConnectedSnoc | scripts/mdb_to_sqlite_fts5.py:397-402 | after one more table, some table has opened the database exactly when one had before or this one did |
| Converter.Convert | scripts/mdb_to_sqlite_fts5.py:381-405 | the `convert` loop returns `ConvertSpec`: every table processed in turn, one failing table not stopping the others |
| Converter.ConvertOutputMissing | scripts/mdb_to_sqlite_fts5.py:404-405 | the final size lookup fails exactly when the output did not exist and every table failed at its schema or produced no export |

## Left out

- Strings.Upper: letter case is mapped for ASCII letters only, not for the rest of Unicode.
- Strings.Lower: letter case is mapped for ASCII letters only, not for the rest of Unicode.
- Running `mdb-ver`, `mdb-tables`, `mdb-schema` and `mdb-export`, and the devnull redirection: their output (or their failure) is an input.
- The temporary CSV file: its creation, its existence and size check, and its removal. An export that produced no output is modelled as an export that decodes to no records.
- Python's `csv.reader`: the decoded records, or a reader error at a record, are an input.
- The `StopIteration` branch for a missing header (lines 233-237) cannot be reached in the model. An empty export is already caught at line 202.
- The SQLite engine: the SQL text (column definitions, quoting, INSERT and FTS5 statements), the table contents, the `rebuild` directive, commit, rollback and close. The engine's verdicts are inputs, and rollback is recorded as the stage at which the load failed.
- `DROP TABLE` and `CREATE TABLE` take effect outside the load's transaction in Python's `sqlite3` module. The model does not track the empty table a rolled-back load leaves behind.
- Logging, the traceback in verbose mode, and the database size in KB (floating point).
- The constructor's input-file check and `_check_mdbtools` (lines 54-100): they only raise before any table is processed.
- `main`: argument parsing, `--list-tables` printing, and the `--prefix` parsing through `int()` (line 502). The prefix lengths are an input setting.
