/**
  module/correction-function-jp.js: the name-protecting codec that hides
  catalog names behind one-letter placeholders before machine translation,
  the table-driven text replacement that restores them, and the two small
  post-translation helpers.
 */
module Correction {
  import opened Optional
  import opened JsString
  import opened Rewrite

  /** The placeholder letters (`codeString` before it is filtered), in the order they are handed out. */
  const CodeLetters: string := "BCDFGHJKLMNPQRSTVWXYZ"

  /**
    `replaceText(text, array)`: returns the text unchanged when the table is not
    an array (`None`), and otherwise replaces, row after row, every occurrence
    of the row's search string by its replacement. With a table produced by
    `ReplaceTextByCode` this is the decoder.
   */
  method ReplaceText(text: string, table: Option<seq<Row>>) returns (r: string)
    ensures table.None? ==> r == text
    ensures table.Some? ==> r == ApplyRows(text, table.value)
  {
    if table.None? {
      return text;
    }
    var rows := table.value;
    r := text;
    for index := 0 to |rows|
      invariant ApplyRows(r, rows[index..]) == ApplyRows(text, rows)
    {
      assert rows[index..][1..] == rows[index + 1..];
      r := ReplaceAll(r, rows[index].search, rows[index].replacement);
    }
    assert rows[|rows|..] == [];
  }

  /** What an honorific suffix does to the catalog's rendering of the name. */
  datatype Form = Plain | Before(prefix: string) | After(suffix: string)

  datatype Suffix = Suffix(text: string, form: Form)

  /** The rendering recorded for a name found with a suffix of the given form. */
  function Render(form: Form, rendering: string): string
  {
    match form
    case Plain => rendering
    case Before(p) => p + rendering
    case After(q) => rendering + q
  }

  /**
    The checks made for every catalog name, in the order the source makes them;
    the last one, with the empty suffix, is the bare name.
   */
  function Suffixes(): seq<Suffix>
  {
    [
      Suffix("さん", Plain),
      Suffix("くん", Plain),
      Suffix("君", Plain),
      Suffix("ちゃん", Before("小")),
      Suffix("たち", After("們")),
      Suffix("お嬢ちゃん", After("小姐")),
      Suffix("お嬢さん", After("小姐")),
      Suffix("お嬢様", After("小姐")),
      Suffix("先輩", After("前輩")),
      Suffix("さま", After("大人")),
      Suffix("様", After("大人")),
      Suffix("提督", After("提督")),
      Suffix("総長", After("總長")),
      Suffix("伯爵", After("伯爵")),
      Suffix("卿", After("閣下")),
      Suffix("陛下", After("陛下")),
      Suffix("猊下", After("陛下")),
      Suffix("殿下", After("殿下")),
      Suffix("殿様", After("殿下")),
      Suffix("殿", After("閣下")),
      Suffix("", Plain)
    ]
  }

  /** The result of `replaceTextByCode`: the encoded text and its `[token, rendering]` table. */
  datatype Encoded = Encoded(text: string, table: seq<Row>)

  /**
    `codeString` after the loop that removes from it every character of the
    text, upper-cased.
   */
  function Alphabet(text: string): string
    decreases |text|
  {
    if text == [] then CodeLetters
    else Without(Alphabet(text[..|text| - 1]), UpperAscii(text[|text| - 1]))
  }

  /** A placeholder letter that no character of the text upper-cases to. */
  predicate Fresh(c: char, text: string)
  {
    c in CodeLetters && forall k :: 0 <= k < |text| ==> UpperAscii(text[k]) != c
  }

  /** The alphabet holds exactly the fresh placeholder letters, each once. */
  lemma {:induction false} AlphabetMembers(text: string)
    ensures forall c :: c in Alphabet(text) <==> Fresh(c, text)
    ensures Distinct(Alphabet(text))
    decreases |text|
  {
    if text == [] {
      CodeLettersDistinct();
    } else {
      var init := text[..|text| - 1];
      var last := UpperAscii(text[|text| - 1]);
      assert Alphabet(text) == Without(Alphabet(init), last);
      AlphabetMembers(init);
      WithoutDistinct(Alphabet(init), last);
      forall c ensures c in Alphabet(text) <==> Fresh(c, text) {
        FreshStep(text, c);
      }
    }
  }

  /** The placeholder letters are in alphabetical order, so none occurs twice. */
  lemma CodeLettersDistinct()
    ensures Distinct(CodeLetters)
  {
    assert forall i :: 0 <= i < |CodeLetters| - 1 ==> CodeLetters[i] < CodeLetters[i + 1];
    IncreasingDistinct(CodeLetters);
  }

  /** A letter is fresh for a text when it is fresh for all but the last character and is not the last one upper-cased. */
  lemma FreshStep(text: string, c: char)
    requires text != []
    ensures Fresh(c, text) <==> Fresh(c, text[..|text| - 1]) && UpperAscii(text[|text| - 1]) != c
  {
    var init := text[..|text| - 1];
    assert forall k :: 0 <= k < |init| ==> init[k] == text[k];
    if Fresh(c, init) && UpperAscii(text[|text| - 1]) != c {
      forall k | 0 <= k < |text| ensures UpperAscii(text[k]) != c {
        if k < |init| {
          assert init[k] == text[k];
        }
      }
    }
  }

  /** A placeholder letter is upper case, so a fresh one does not occur in the text either. */
  lemma FreshNotInText(c: char, text: string)
    requires Fresh(c, text)
    ensures c !in text
  {
    assert forall k :: 0 <= k < |CodeLetters| ==> 'A' <= CodeLetters[k] <= 'Z';
  }

  /**
    `codeString[codeIndex]` as `replaceAll` and `table.push` see it: past the
    end of the alphabet it is `undefined`, which `replaceAll` writes into the
    text, and later searches for, as the string "undefined".
   */
  function Token(alphabet: string, index: nat): string
  {
    if index < |alphabet| then [alphabet[index]] else "undefined"
  }

  /**
    One `if (text.includes(pattern)) { ... }` block. `codeIndex` is always the
    length of the table, so it is not kept separately. `bounded` adds the check
    of the alphabet's size that the source makes only before each name.
   */
  function TryRule(acc: Encoded, alphabet: string, pattern: string, rendering: string, bounded: bool): Encoded
  {
    if Includes(acc.text, pattern) && (!bounded || |acc.table| < |alphabet|) then
      var token := Token(alphabet, |acc.table|);
      Encoded(ReplaceAll(acc.text, pattern, token), acc.table + [Row(token, rendering)])
    else acc
  }

  /** All checks for one catalog row `[name, rendering]`, suffix after suffix and then the bare name. */
  function ProtectName(acc: Encoded, alphabet: string, entry: Row, suffixes: seq<Suffix>, bounded: bool): Encoded
    decreases |suffixes|
  {
    if suffixes == [] then acc
    else
      var next := TryRule(acc, alphabet, entry.search + suffixes[0].text, Render(suffixes[0].form, entry.replacement), bounded);
      ProtectName(next, alphabet, entry, suffixes[1..], bounded)
  }

  /** The outer loop: catalog rows in order, as long as `codeIndex < codeString.length` holds before a row. */
  function ProtectCatalog(acc: Encoded, alphabet: string, catalog: seq<Row>, bounded: bool): Encoded
    decreases |catalog|
  {
    if catalog == [] || |acc.table| >= |alphabet| then acc
    else ProtectCatalog(ProtectEntry(acc, alphabet, catalog[0], bounded), alphabet, catalog[1..], bounded)
  }

  /** One iteration of the loop over the catalog: every suffix of the name, then the bare name. */
  function ProtectEntry(acc: Encoded, alphabet: string, entry: Row, bounded: bool): Encoded
  {
    ProtectName(acc, alphabet, entry, Suffixes(), bounded)
  }

  /** `replaceTextByCode(text, array)` as written. */
  function Encode(text: string, catalog: Option<seq<Row>>): Encoded
  {
    match catalog
    case None => Encoded(text, [])
    case Some(rows) => ProtectCatalog(Encoded(text, []), Alphabet(text), rows, false)
  }

  /** The encoder with the alphabet checked before every substitution, so that it stops when the letters run out. */
  function EncodeBounded(text: string, catalog: Option<seq<Row>>): Encoded
  {
    match catalog
    case None => Encoded(text, [])
    case Some(rows) => ProtectCatalog(Encoded(text, []), Alphabet(text), rows, true)
  }

  /**
    The first loop of `replaceTextByCode`: every character of the text, upper-cased,
    is removed from the placeholder letters.
   */
  method CodeString(text: string) returns (codeString: string)
    ensures codeString == Alphabet(text)
  {
    codeString := CodeLetters;
    for index := 0 to |text|
      invariant codeString == Alphabet(text[..index])
    {
      ReplaceCharByNothing(codeString, UpperAscii(text[index]));
      assert text[..index + 1][..index] == text[..index];
      codeString := ReplaceAll(codeString, [UpperAscii(text[index])], "");
    }
    assert text[..|text|] == text;
  }

  /**
    The body of the loop over the catalog, for row `index`: every suffix of the
    name, then the bare name. `codeIndex` is the length of the table
    throughout, so the caller recomputes it.
   */
  method ProtectElement(text: string, table: seq<Row>, codeString: string, catalog: seq<Row>, index: nat)
    returns (t: string, table': seq<Row>)
    requires index < |catalog| && |table| < |codeString|
    ensures ProtectCatalog(Encoded(t, table'), codeString, catalog[index + 1..], false)
         == ProtectCatalog(Encoded(text, table), codeString, catalog[index..], false)
  {
    var element := catalog[index];
    var suffixes := Suffixes();
    t, table' := text, table;
    for k := 0 to |suffixes|
      invariant ProtectName(Encoded(t, table'), codeString, element, suffixes[k..], false)
             == ProtectName(Encoded(text, table), codeString, element, suffixes, false)
    {
      ProtectNameStep(Encoded(t, table'), codeString, element, suffixes, k, false);
      var pattern := element.search + suffixes[k].text;
      if Includes(t, pattern) {
        var token := Token(codeString, |table'|);
        t := ReplaceAll(t, pattern, token);
        table' := table' + [Row(token, Render(suffixes[k].form, element.replacement))];
      }
    }
    assert suffixes[|suffixes|..] == [];
    ProtectCatalogStep(Encoded(text, table), codeString, catalog, index);
  }

  /**
    `replaceTextByCode(text, array)`: computes the alphabet, then tries every
    suffix of every catalog name and then the bare name, hiding each hit behind
    the next placeholder and recording `[placeholder, rendering]`.
   */
  method ReplaceTextByCode(text: string, names: Option<seq<Row>>) returns (result: Encoded)
    ensures result == Encode(text, names)
  {
    if names.None? {
      return Encoded(text, []);
    }
    var catalog := names.value;

    var codeIndex := 0;
    var codeString := CodeString(text);

    var t := text;
    var table: seq<Row> := [];
    var index := 0;
    while index < |catalog| && codeIndex < |codeString|
      invariant index <= |catalog|
      invariant codeIndex == |table|
      invariant ProtectCatalog(Encoded(t, table), codeString, catalog[index..], false)
             == ProtectCatalog(Encoded(text, []), codeString, catalog, false)
    {
      t, table := ProtectElement(t, table, codeString, catalog, index);
      codeIndex := |table|;
      index := index + 1;
    }
    ProtectCatalogDone(Encoded(t, table), codeString, catalog, index);
    result := Encoded(t, table);
  }

  /** One iteration of the loop over the catalog. */
  lemma ProtectCatalogStep(acc: Encoded, alphabet: string, catalog: seq<Row>, index: nat)
    requires index < |catalog| && |acc.table| < |alphabet|
    ensures ProtectCatalog(acc, alphabet, catalog[index..], false)
         == ProtectCatalog(ProtectEntry(acc, alphabet, catalog[index], false), alphabet, catalog[index + 1..], false)
  {
    assert catalog[index..][1..] == catalog[index + 1..];
  }

  /** The loop over the catalog ends when the catalog or the alphabet runs out. */
  lemma ProtectCatalogDone(acc: Encoded, alphabet: string, catalog: seq<Row>, index: nat)
    requires index <= |catalog|
    requires index == |catalog| || |acc.table| >= |alphabet|
    ensures ProtectCatalog(acc, alphabet, catalog[index..], false) == acc
  {
  }

  /** One iteration of the loop over the suffixes. */
  lemma ProtectNameStep(acc: Encoded, alphabet: string, entry: Row, suffixes: seq<Suffix>, k: nat, bounded: bool)
    requires k < |suffixes|
    ensures ProtectName(acc, alphabet, entry, suffixes[k..], bounded)
         == ProtectName(TryRule(acc, alphabet, entry.search + suffixes[k].text, Render(suffixes[k].form, entry.replacement), bounded),
                        alphabet, entry, suffixes[k + 1..], bounded)
  {
    assert suffixes[k..][1..] == suffixes[k + 1..];
  }

  /** Row `i` of the table carries the `i`-th placeholder. */
  predicate TokensInOrder(table: seq<Row>, alphabet: string)
  {
    forall i :: 0 <= i < |table| ==> table[i].search == Token(alphabet, i)
  }

  predicate Invariant(acc: Encoded, alphabet: string, bounded: bool)
  {
    TokensInOrder(acc.table, alphabet) && (bounded ==> |acc.table| <= |alphabet|)
  }

  lemma {:induction false} ProtectNameInvariant(acc: Encoded, alphabet: string, entry: Row, suffixes: seq<Suffix>, bounded: bool)
    requires Invariant(acc, alphabet, bounded)
    ensures Invariant(ProtectName(acc, alphabet, entry, suffixes, bounded), alphabet, bounded)
    decreases |suffixes|
  {
    if suffixes != [] {
      var next := TryRule(acc, alphabet, entry.search + suffixes[0].text, Render(suffixes[0].form, entry.replacement), bounded);
      assert Invariant(next, alphabet, bounded);
      ProtectNameInvariant(next, alphabet, entry, suffixes[1..], bounded);
    }
  }

  lemma {:induction false} ProtectCatalogInvariant(acc: Encoded, alphabet: string, catalog: seq<Row>, bounded: bool)
    requires Invariant(acc, alphabet, bounded)
    ensures Invariant(ProtectCatalog(acc, alphabet, catalog, bounded), alphabet, bounded)
    decreases |catalog|
  {
    if catalog != [] && |acc.table| < |alphabet| {
      ProtectNameInvariant(acc, alphabet, catalog[0], Suffixes(), bounded);
      ProtectCatalogInvariant(ProtectEntry(acc, alphabet, catalog[0], bounded), alphabet, catalog[1..], bounded);
    }
  }

  /**
    The codec as written: row `i` of the table carries the `i`-th letter of the
    alphabet, a placeholder letter that no character of the input upper-cases
    to and that does not occur in the input; letters of different rows differ.
    Rows past the end of the alphabet carry the string "undefined".
   */
  lemma EncodeTokens(text: string, catalog: seq<Row>)
    ensures var r := Encode(text, Some(catalog));
      && (forall i :: 0 <= i < |r.table| && i < |Alphabet(text)| ==>
            |r.table[i].search| == 1 && Fresh(r.table[i].search[0], text) && r.table[i].search[0] !in text)
      && (forall i :: |Alphabet(text)| <= i < |r.table| ==> r.table[i].search == "undefined")
      && (forall i, j :: 0 <= i < j < |r.table| && j < |Alphabet(text)| ==> r.table[i].search != r.table[j].search)
  {
    EncodeInOrder(text, catalog);
    LetterRows(text, Encode(text, Some(catalog)).table);
  }

  /** The encoder as written numbers its rows in alphabet order. */
  lemma EncodeInOrder(text: string, catalog: seq<Row>)
    ensures TokensInOrder(Encode(text, Some(catalog)).table, Alphabet(text))
  {
    ProtectCatalogInvariant(Encoded(text, []), Alphabet(text), catalog, false);
  }

  /**
    The corrected codec: never more rows than placeholder letters, and every
    row carries a distinct fresh letter that does not occur in the input.
   */
  lemma EncodeBoundedTokens(text: string, catalog: seq<Row>)
    ensures var r := EncodeBounded(text, Some(catalog));
      && |r.table| <= |Alphabet(text)|
      && (forall i :: 0 <= i < |r.table| ==>
            |r.table[i].search| == 1 && Fresh(r.table[i].search[0], text) && r.table[i].search[0] !in text)
      && (forall i, j :: 0 <= i < j < |r.table| ==> r.table[i].search != r.table[j].search)
  {
    EncodeBoundedInOrder(text, catalog);
    LetterRows(text, EncodeBounded(text, Some(catalog)).table);
  }

  /** The corrected encoder numbers its rows in alphabet order and stays within the alphabet. */
  lemma EncodeBoundedInOrder(text: string, catalog: seq<Row>)
    ensures TokensInOrder(EncodeBounded(text, Some(catalog)).table, Alphabet(text))
    ensures |EncodeBounded(text, Some(catalog)).table| <= |Alphabet(text)|
  {
    ProtectCatalogInvariant(Encoded(text, []), Alphabet(text), catalog, true);
  }

  /** Rows numbered in alphabet order carry fresh, distinct letters absent from the text, as far as the alphabet goes. */
  lemma LetterRows(text: string, table: seq<Row>)
    requires TokensInOrder(table, Alphabet(text))
    ensures forall i :: 0 <= i < |table| && i < |Alphabet(text)| ==>
      |table[i].search| == 1 && Fresh(table[i].search[0], text) && table[i].search[0] !in text
    ensures forall i, j :: 0 <= i < j < |table| && j < |Alphabet(text)| ==> table[i].search != table[j].search
    ensures forall i :: |Alphabet(text)| <= i < |table| ==> table[i].search == "undefined"
  {
    var a := Alphabet(text);
    AlphabetMembers(text);
    forall i | 0 <= i < |table| && i < |a|
      ensures |table[i].search| == 1 && Fresh(table[i].search[0], text) && table[i].search[0] !in text
    {
      assert table[i].search == [a[i]];
      assert a[i] in a;
      FreshNotInText(a[i], text);
    }
    forall i, j | 0 <= i < j < |table| && j < |a| ensures table[i].search != table[j].search {
      assert table[i].search[0] == a[i] && table[j].search[0] == a[j];
    }
  }

  /** Nothing is pushed for a name that is not in the text. */
  lemma {:induction false} ProtectNameAbsent(acc: Encoded, alphabet: string, entry: Row, suffixes: seq<Suffix>, bounded: bool)
    requires !Includes(acc.text, entry.search)
    ensures ProtectName(acc, alphabet, entry, suffixes, bounded) == acc
    decreases |suffixes|
  {
    if suffixes != [] {
      if Includes(acc.text, entry.search + suffixes[0].text) {
        IncludesPrefix(acc.text, entry.search, suffixes[0].text);
      }
      ProtectNameAbsent(acc, alphabet, entry, suffixes[1..], bounded);
    }
  }

  /** A text in which no catalog name occurs comes back unchanged, with an empty table. */
  lemma {:induction false} EncodeAbsent(text: string, catalog: seq<Row>)
    requires forall k :: 0 <= k < |catalog| ==> !Includes(text, catalog[k].search)
    ensures Encode(text, Some(catalog)) == Encoded(text, [])
  {
    var a := Alphabet(text);
    var rest := catalog;
    while rest != []
      invariant forall k :: 0 <= k < |rest| ==> !Includes(text, rest[k].search)
      invariant ProtectCatalog(Encoded(text, []), a, rest, false) == ProtectCatalog(Encoded(text, []), a, catalog, false)
      decreases |rest|
    {
      if |a| > 0 {
        ProtectNameAbsent(Encoded(text, []), a, rest[0], Suffixes(), false);
      }
      rest := rest[1..];
    }
  }
}
