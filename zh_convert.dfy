/**
  src/main_modules/translator/zh-convert.js: Chinese script conversion by
  literal replacement tables. `replaceText` runs the rows of a table over
  the text in order; `exec` picks the table by name. The tables themselves
  are data and come in as a parameter.
 */
module ZhConvert {
  import opened Optional
  import opened JsString
  import opened Rewrite

  /**
    `replaceText(text = '', zhTable = [])`: a missing argument takes its
    default; every `[from, to]` row, in table order, replaces all
    occurrences of `from`.
   */
  method ReplaceText(text: Option<string>, zhTable: Option<seq<Row>>) returns (r: string)
    ensures r == ApplyRows(if text.Some? then text.value else "", if zhTable.Some? then zhTable.value else [])
    ensures zhTable.None? || zhTable.value == [] ==> r == (if text.Some? then text.value else "")
  {
    var table := if zhTable.Some? then zhTable.value else [];
    var original := if text.Some? then text.value else "";
    r := original;
    for index := 0 to |table|
      invariant r == ApplyRows(original, table[..index])
    {
      ApplyRowsConcat(original, table[..index], [table[index]]);
      assert table[..index + 1] == table[..index] + [table[index]];
      r := ReplaceAll(r, table[index].search, table[index].replacement);
    }
    assert table[..|table|] == table;
  }

  /** The `exec` option: which text, and the name of the table to convert it with. */
  datatype ExecOption = ExecOption(text: Option<string>, tableName: Option<string>)

  /** The option `exec` works with: its default `{text: '', tableName: 'zh2Hant'}` when none is given. */
  function EffectiveOption(option: Option<ExecOption>): (o: ExecOption)
    ensures option.Some? ==> o == option.value
    ensures option.None? ==> o.text == Some("") && o.tableName == Some("zh2Hant")
  {
    if option.Some? then option.value else ExecOption(Some(""), Some("zh2Hant"))
  }

  /** The property key `zhTables[option.tableName]` reads: a missing name becomes the key `'undefined'`. */
  function TableKey(tableName: Option<string>): (key: string)
    ensures tableName.Some? ==> key == tableName.value
    ensures tableName.None? ==> key == "undefined"
  {
    if tableName.Some? then tableName.value else "undefined"
  }

  /** `zhTables[key]`: the table, or `undefined` for a name the tables lack. */
  function LookUp(tables: map<string, seq<Row>>, key: string): (t: Option<seq<Row>>)
    ensures t.Some? <==> key in tables
    ensures t.Some? ==> t.value == tables[key]
  {
    if key in tables then Some(tables[key]) else None
  }

  /**
    `exec(option)`: the option's text through the named table. A name
    missing from the tables leaves the text as it is.
   */
  method Exec(option: Option<ExecOption>, tables: map<string, seq<Row>>) returns (r: string)
    ensures var o := EffectiveOption(option);
      var text := if o.text.Some? then o.text.value else "";
      && (TableKey(o.tableName) in tables ==> r == ApplyRows(text, tables[TableKey(o.tableName)]))
      && (TableKey(o.tableName) !in tables ==> r == text)
  {
    var o := EffectiveOption(option);
    r := ReplaceText(o.text, LookUp(tables, TableKey(o.tableName)));
  }

  /** A table whose rows each map a string to itself changes nothing. */
  lemma {:induction false} IdentityRows(text: string, rows: seq<Row>)
    requires forall k :: 0 <= k < |rows| ==> rows[k].replacement == rows[k].search
    ensures ApplyRows(text, rows) == text
    decreases |rows|
  {
    if rows != [] {
      ReplaceAllSame(text, rows[0].search);
      IdentityRows(text, rows[1..]);
    }
  }
}
