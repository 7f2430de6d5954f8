/**
  Ordered tables of literal replacements, `[[search, replacement], ...]`,
  applied one row after another with `replaceAll`. The name-protecting codec's
  restoration table, the Chinese conversion tables and the OCR clean-up chains
  all have this shape.
 */
module Rewrite {
  import opened JsString

  datatype Row = Row(search: string, replacement: string)

  /** The text after each row, in table order, has replaced every occurrence of its search string. */
  function ApplyRows(text: string, rows: seq<Row>): string
    decreases |rows|
  {
    if rows == [] then text
    else ApplyRows(ReplaceAll(text, rows[0].search, rows[0].replacement), rows[1..])
  }

  /** Applying two tables one after the other is applying their concatenation. */
  lemma {:induction false} ApplyRowsConcat(text: string, first: seq<Row>, second: seq<Row>)
    ensures ApplyRows(text, first + second) == ApplyRows(ApplyRows(text, first), second)
    decreases |first|
  {
    if first == [] {
      assert first + second == second;
    } else {
      assert (first + second)[0] == first[0];
      assert (first + second)[1..] == first[1..] + second;
      ApplyRowsConcat(ReplaceAll(text, first[0].search, first[0].replacement), first[1..], second);
    }
  }

  /** No row puts `c` back: a text without `c` stays without it. */
  predicate NoRowWrites(rows: seq<Row>, c: char)
  {
    forall k :: 0 <= k < |rows| ==> c !in rows[k].replacement
  }

  lemma {:induction false} ApplyRowsKeepsOut(text: string, rows: seq<Row>, c: char)
    requires c !in text && NoRowWrites(rows, c)
    ensures c !in ApplyRows(text, rows)
    decreases |rows|
  {
    if rows != [] {
      ReplaceAllChars(text, rows[0].search, rows[0].replacement);
      ApplyRowsKeepsOut(ReplaceAll(text, rows[0].search, rows[0].replacement), rows[1..], c);
    }
  }

  /** A table with a row that replaces `c` alone, and no row that writes `c`, leaves no `c` behind. */
  lemma {:induction false} ApplyRowsRemoves(text: string, rows: seq<Row>, k: nat, c: char)
    requires k < |rows| && rows[k].search == [c] && NoRowWrites(rows, c)
    ensures c !in ApplyRows(text, rows)
    decreases k
  {
    var next := ReplaceAll(text, rows[0].search, rows[0].replacement);
    if k == 0 {
      ReplaceAllRemovesChar(text, c, rows[0].replacement);
      ApplyRowsKeepsOut(next, rows[1..], c);
    } else {
      ApplyRowsRemoves(next, rows[1..], k - 1, c);
    }
  }

  /** A table whose rows all write text apart from `q` creates no occurrence of `q`. */
  lemma {:induction false} ApplyRowsNoNew(text: string, rows: seq<Row>, q: string)
    requires forall k :: 0 <= k < |rows| ==> rows[k].search != [] && Apart(q, rows[k].replacement)
    requires Includes(ApplyRows(text, rows), q)
    ensures Includes(text, q)
    decreases |rows|
  {
    if rows != [] {
      var next := ReplaceAll(text, rows[0].search, rows[0].replacement);
      ApplyRowsNoNew(next, rows[1..], q);
      ReplaceAllNoNew(text, rows[0].search, rows[0].replacement, q);
    }
  }
}
