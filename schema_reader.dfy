/**
  `get_table_schema`: the ordered (column name, declared type) list read out
  of the `CREATE TABLE` statement that `mdb-schema <file> sqlite -T <table>`
  prints. The tool run itself is not modelled: its standard output is the
  input `dump`.
 */
module SchemaReader {
  import opened Strings
  import opened Optional

  /** One schema entry, `(col_name, col_type)`. */
  datatype Column = Column(name: string, ctype: string)

  /** A declared type as the parser returns it: one non-empty word with no
      lower-case ASCII letter. */
  predicate IsUpperWord(t: string) {
    t != [] && forall i :: 0 <= i < |t| ==> !IsSpace(t[i]) && !('a' <= t[i] <= 'z')
  }

  /** `line.strip().rstrip(",")` */
  function CleanLine(raw: string): string {
    TrimRight(Strip(raw), IsComma)
  }

  /** `parts[0].strip().strip('"').strip("[]")` */
  function ColumnName(word: string): string {
    Trim(Trim(Strip(word), IsDoubleQuote), IsBracket)
  }

  /** What one line of the column list contributes. Blank lines, `--` comment
      lines and lines with fewer than two words contribute nothing; any other
      line gives its first word, undecorated, as the name and its second word,
      upper-cased, as the type. */
  function ParseLine(raw: string): (entry: Option<Column>)
    ensures entry.Some? ==> IsUpperWord(entry.value.ctype)
  {
    var line := CleanLine(raw);
    if line != [] && !StartsWith(line, "--") then
      var parts := SplitOnce(line);
      if |parts| >= 2 then
        var token := Token(parts[1]);
        assert token != [];
        Some(Column(ColumnName(parts[0]), Upper(token)))
      else
        None
    else
      None
  }

  /** A line yields an entry exactly when, once stripped of surrounding
      whitespace and trailing commas, it is not blank, not a `--` comment and
      has at least two words; the entry is the first word, undecorated, and
      the second word, upper-cased. */
  lemma ParseLineWords(raw: string)
    ensures var l := CleanLine(raw);
      ParseLine(raw).Some? <==> l != [] && !StartsWith(l, "--") && |Words(l)| >= 2
    ensures var l := CleanLine(raw);
      ParseLine(raw).Some? ==>
        |Words(l)| >= 2 && ParseLine(raw).value == Column(ColumnName(Words(l)[0]), Upper(Words(l)[1]))
  {
    SplitOnceWords(CleanLine(raw));
  }

  /** The entries of a run of lines, in line order. */
  function ParseLines(lines: seq<string>): (schema: seq<Column>)
    ensures |schema| <= |lines|
  {
    FilterMap(lines, ParseLine)
  }

  /** The schema read from a `mdb-schema` dump: the lines between the first
      `(` and the last `)` of the text, provided it holds `CREATE TABLE`;
      otherwise nothing. */
  function ParseSchema(dump: string): (schema: seq<Column>)
    ensures !Contains(dump, "CREATE TABLE") || '(' !in dump || ')' !in dump ==> schema == []
  {
    if Contains(dump, "CREATE TABLE") then
      var start := IndexOf(dump, '(');
      var end := LastIndexOf(dump, ')');
      if start != -1 && end != -1 then
        ParseLines(Split(Slice(dump, start + 1, end), '\n'))
      else
        []
    else
      []
  }

  /** Parsing is line by line: the entries of two runs of lines are the
      entries of the first followed by those of the second. */
  lemma ParseLinesAppend(a: seq<string>, b: seq<string>)
    ensures ParseLines(a + b) == ParseLines(a) + ParseLines(b)
  {
    FilterMapAppend(a, b, ParseLine);
  }

  lemma ParseLinesSnoc(lines: seq<string>, i: nat)
    requires i < |lines|
    ensures ParseLines(lines[..i + 1]) == ParseLines(lines[..i]) + ParseLine(lines[i]).ToSeq()
  {
    assert lines[..i + 1] == lines[..i] + [lines[i]];
    FilterMapSnoc(lines[..i], lines[i], ParseLine);
  }

  /** The schema is read from the text between the first `(` and the last
      `)` of a dump that holds `CREATE TABLE`. */
  method GetTableSchema(dump: string) returns (schema: seq<Column>)
    ensures schema == ParseSchema(dump)
  {
    schema := [];
    if Contains(dump, "CREATE TABLE") {
      var start := IndexOf(dump, '(');
      var end := LastIndexOf(dump, ')');
      if start != -1 && end != -1 {
        var columns := Slice(dump, start + 1, end);
        schema := ReadColumnLines(Split(columns, '\n'));
      }
    }
  }

  /** The column lines are read by appending one entry per qualifying line. */
  method ReadColumnLines(lines: seq<string>) returns (schema: seq<Column>)
    ensures schema == ParseLines(lines)
  {
    schema := [];
    for i := 0 to |lines|
      invariant schema == ParseLines(lines[..i])
    {
      var line := TrimRight(Strip(lines[i]), IsComma);
      var entry: Option<Column> := None;
      if line != [] && !StartsWith(line, "--") {
        var parts := SplitOnce(line);
        if |parts| >= 2 {
          var colName := ColumnName(parts[0]);
          var colType := Upper(Token(parts[1]));
          entry := Some(Column(colName, colType));
        }
      }
      assert entry == ParseLine(lines[i]);
      if entry.Some? {
        schema := schema + [entry.value];
      }
      ParseLinesSnoc(lines, i);
    }
    assert lines[..|lines|] == lines;
  }
}
