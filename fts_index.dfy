/**
  `_create_fts5_table` and the decision in `export_table` to call it: which
  columns the FTS5 index covers, the options of its `CREATE VIRTUAL TABLE`
  statement, and whether an index is attempted at all. The SQL text and the
  engine that runs it are not modelled; the plan records the index table's
  name, its columns and its options in order.
 */
module FtsIndex {
  import opened Strings
  import opened Optional
  import opened SchemaReader
  import opened TableLoader

  /** `'TEXT' in t.upper() or 'VARCHAR' in t.upper() or 'CHAR' in t.upper()` */
  predicate IsTextLike(t: string) {
    var u := Upper(t);
    Contains(u, "TEXT") || Contains(u, "VARCHAR") || Contains(u, "CHAR")
  }

  function TextName(c: Column): Option<string> {
    if IsTextLike(c.ctype) then Some(c.name) else None
  }

  /** The names of the text-like columns, in schema order. */
  function TextColumns(schema: seq<Column>): (names: seq<string>)
    ensures |names| <= |schema|
  {
    FilterMap(schema, TextName)
  }

  /** A name is selected exactly when some column of that name has a
      text-like type. */
  lemma TextColumnsMember(schema: seq<Column>, name: string)
    ensures name in TextColumns(schema) <==>
      exists i :: 0 <= i < |schema| && schema[i].name == name && IsTextLike(schema[i].ctype)
  {
    FilterMapMember(schema, TextName, name);
  }

  /** Selection keeps schema order: the text columns of two consecutive runs
      of columns are those of the first followed by those of the second. */
  lemma TextColumnsAppend(a: seq<Column>, b: seq<Column>)
    ensures TextColumns(a + b) == TextColumns(a) + TextColumns(b)
  {
    FilterMapAppend(a, b, TextName);
  }

  lemma ContainsNeeds(s: string, sub: string, c: char)
    requires c in sub && c !in s
    ensures !Contains(s, sub)
  {
  }

  lemma UpperFixed(s: string)
    requires forall i :: 0 <= i < |s| ==> !('a' <= s[i] <= 'z')
    ensures Upper(s) == s
  {
  }

  /** A type free of lower-case letters, `X` and `H` is not text-like. */
  lemma NotTextLike(t: string)
    requires forall i :: 0 <= i < |t| ==> !('a' <= t[i] <= 'z')
    requires 'X' !in t && 'H' !in t
    ensures !IsTextLike(t)
  {
    UpperFixed(t);
    ContainsNeeds(t, "TEXT", 'X');
    ContainsNeeds(t, "VARCHAR", 'H');
    ContainsNeeds(t, "CHAR", 'H');
  }

  lemma TextIsTextLike()
    ensures IsTextLike("TEXT")
  {
    UpperFixed("TEXT");
    assert StartsWith("TEXT", "TEXT");
  }

  /** Among the types a sanitised column can have, exactly TEXT is text-like:
      under the `all` policy the index covers the TEXT columns. */
  lemma AllowedTypeTextLike(t: string)
    requires t in AllowedTypes
    ensures IsTextLike(t) <==> t == "TEXT"
  {
    if t == "TEXT" {
      TextIsTextLike();
    } else if t == "INTEGER" {
      NotTextLike("INTEGER");
    } else if t == "REAL" {
      NotTextLike("REAL");
    } else if t == "BLOB" {
      NotTextLike("BLOB");
    } else {
      assert t == "NUMERIC";
      NotTextLike("NUMERIC");
    }
  }

  /** A schema of an INTEGER column followed by two TEXT columns selects the
      two TEXT columns, in order, whatever the columns are called. */
  lemma TextColumnsExample(id: string, name: string, bio: string)
    ensures TextColumns([Column(id, "INTEGER"), Column(name, "TEXT"), Column(bio, "TEXT")]) == [name, bio]
  {
    var a, b, c := Column(id, "INTEGER"), Column(name, "TEXT"), Column(bio, "TEXT");
    ExampleTextNames(id, name, bio);
    FilterMapSnoc([], a, TextName);
    FilterMapSnoc([a], b, TextName);
    FilterMapSnoc([a, b], c, TextName);
    assert [] + [a] == [a];
    assert [a] + [b] == [a, b];
    assert [a, b] + [c] == [a, b, c];
  }

  lemma ExampleTextNames(id: string, name: string, bio: string)
    ensures TextName(Column(id, "INTEGER")).ToSeq() == []
    ensures TextName(Column(name, "TEXT")).ToSeq() == [name]
    ensures TextName(Column(bio, "TEXT")).ToSeq() == [bio]
  {
    NotTextLike("INTEGER");
    TextIsTextLike();
  }

  /** The columns to index: the sentinel `['all']` selects the text-like
      columns; any other list is used as given. */
  function SelectColumns(schema: seq<Column>, policy: seq<string>): (columns: seq<string>)
    ensures policy != ["all"] ==> columns == policy
    ensures policy == ["all"] ==> columns == TextColumns(schema)
    ensures policy == ["all"] ==> forall n :: n in columns ==>
      exists i :: 0 <= i < |schema| && schema[i].name == n && IsTextLike(schema[i].ctype)
  {
    if policy == ["all"] then
      var names := TextColumns(schema);
      forall n | n in names
        ensures exists i :: 0 <= i < |schema| && schema[i].name == n && IsTextLike(schema[i].ctype)
      {
        TextColumnsMember(schema, n);
      }
      names
    else
      policy
  }

  /** `key='value'` */
  function Setting(key: string, value: string): string {
    key + "='" + value + "'"
  }

  /** The key of a `key='value'` option: the text before its first `=`. */
  function SettingKey(s: string): string {
    if s == [] || s[0] == '=' then [] else [s[0]] + SettingKey(s[1..])
  }

  /** The text after the first `=` of an option. */
  function AfterEquals(s: string): string {
    if s == [] then [] else if s[0] == '=' then s[1..] else AfterEquals(s[1..])
  }

  /** The value of a `key='value'` option: the text between the quotes that
      follow its first `=`. */
  function SettingValue(s: string): string {
    var quoted := AfterEquals(s);
    if |quoted| >= 2 then quoted[1..|quoted| - 1] else []
  }

  /** An option reads back as its key and its value, provided the key holds
      no `=`. */
  lemma {:induction false} SettingRoundTrip(key: string, value: string)
    requires '=' !in key
    ensures SettingKey(Setting(key, value)) == key
    ensures SettingValue(Setting(key, value)) == value
    decreases |key|
  {
    var s := Setting(key, value);
    if key == [] {
      assert s == "='" + value + "'";
      assert AfterEquals(s) == "'" + value + "'";
    } else {
      SettingRoundTrip(key[1..], value);
      assert s[1..] == Setting(key[1..], value);
    }
  }

  /** `self.prefix_index` is truthy: given and not empty. */
  predicate HasPrefix(prefix: Option<seq<int>>) {
    prefix.Some? && prefix.value != []
  }

  /** `" ".join(map(str, prefix))` */
  function PrefixText(prefix: seq<int>): string {
    Join(seq(|prefix|, i requires 0 <= i < |prefix| => IntToString(prefix[i])), " ")
  }

  /** The prefix lengths read back out of their option text: splitting it on
      spaces gives one integer literal per length, in order. */
  lemma PrefixRoundTrip(prefix: seq<int>)
    requires prefix != []
    ensures var parts := Split(PrefixText(prefix), ' ');
      && |parts| == |prefix|
      && (forall i :: 0 <= i < |parts| ==> IsIntLiteral(parts[i]) && IntValue(parts[i]) == prefix[i])
  {
    var strs := seq(|prefix|, i requires 0 <= i < |prefix| => IntToString(prefix[i]));
    SplitJoin(strs, ' ');
    forall i | 0 <= i < |prefix|
      ensures IsIntLiteral(strs[i]) && IntValue(strs[i]) == prefix[i]
    {
      IntToStringRoundTrip(prefix[i]);
    }
  }

  /** The options of the FTS5 table: external content from the base table
      keyed by its rowid, the tokenizer, and the prefix lengths when any are
      configured. */
  function FtsOptions(table: string, tokenizer: string, prefix: Option<seq<int>>): seq<string> {
    [Setting("content", table), Setting("content_rowid", "rowid"), Setting("tokenize", tokenizer)]
    + if HasPrefix(prefix) then [Setting("prefix", PrefixText(prefix.value))] else []
  }

  /** The options come in the order content, content_rowid, tokenize, then
      prefix exactly when prefix lengths are configured, and each reads back
      as the value it was built from. */
  lemma FtsOptionsOrder(table: string, tokenizer: string, prefix: Option<seq<int>>)
    ensures var opts := FtsOptions(table, tokenizer, prefix);
      && |opts| == (if HasPrefix(prefix) then 4 else 3)
      && SettingKey(opts[0]) == "content" && SettingValue(opts[0]) == table
      && SettingKey(opts[1]) == "content_rowid" && SettingValue(opts[1]) == "rowid"
      && SettingKey(opts[2]) == "tokenize" && SettingValue(opts[2]) == tokenizer
      && (HasPrefix(prefix) ==> SettingKey(opts[3]) == "prefix" && SettingValue(opts[3]) == PrefixText(prefix.value))
  {
    var opts := FtsOptions(table, tokenizer, prefix);
    assert opts[..3] == [Setting("content", table), Setting("content_rowid", "rowid"), Setting("tokenize", tokenizer)];
    OptionKeys();
    SettingRoundTrip("content", table);
    SettingRoundTrip("content_rowid", "rowid");
    SettingRoundTrip("tokenize", tokenizer);
    if HasPrefix(prefix) {
      assert opts[3] == Setting("prefix", PrefixText(prefix.value));
      SettingRoundTrip("prefix", PrefixText(prefix.value));
    }
  }

  lemma OptionKeys()
    ensures '=' !in "content" && '=' !in "content_rowid" && '=' !in "tokenize" && '=' !in "prefix"
  {
  }

  /** What happens about the full-text index of one table. */
  datatype IndexPlan =
    | NotRequested
    | NoTextColumns
    | Index(ftsTable: string, columns: seq<string>, options: seq<string>)

  /** `if fts_columns and row_count > 0`, then `_create_fts5_table`: an index
      is attempted only for a non-empty policy and at least one imported row,
      and built only when the selection is not empty. */
  function PlanIndex(table: string, schema: seq<Column>, policy: Option<seq<string>>, rowCount: nat,
                     tokenizer: string, prefix: Option<seq<int>>): (plan: IndexPlan)
    ensures plan.NotRequested? <==> policy.None? || policy.value == [] || rowCount == 0
    ensures plan.Index? ==> plan.ftsTable == table + "_fts" && plan.columns != []
    ensures plan.Index? ==> plan.columns == SelectColumns(schema, policy.value)
    ensures plan.Index? ==> plan.options == FtsOptions(table, tokenizer, prefix)
    ensures plan.NoTextColumns? ==> SelectColumns(schema, policy.value) == []
  {
    if policy.Some? && policy.value != [] && rowCount > 0 then
      var columns := SelectColumns(schema, policy.value);
      if columns == [] then NoTextColumns
      else Index(table + "_fts", columns, FtsOptions(table, tokenizer, prefix))
    else
      NotRequested
  }
}
