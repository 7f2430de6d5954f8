/**
  Worked inputs of the name-protecting codec of module/correction-function-jp.js:
  the catalog example of a single honorific, and an input on which the
  encoder as written runs out of placeholder letters in the middle of one
  catalog name, next to what the bounded encoder does with the same input.
 */
module CodecExamples {
  import opened Optional
  import opened JsString
  import opened Rewrite
  import opened Correction

  /** The first four checks made for a name, in source order. */
  lemma FirstSuffixes()
    ensures |Suffixes()| == 21
    ensures FirstChecks(Suffixes())
  {
  }

  /** A catalog of one row is one pass of the name checks, while the alphabet has room. */
  lemma CatalogOfOne(acc: Encoded, alphabet: string, row: Row, bounded: bool)
    requires |acc.table| < |alphabet|
    ensures ProtectCatalog(acc, alphabet, [row], bounded) == ProtectEntry(acc, alphabet, row, bounded)
  {
    assert [row][1..] == [];
  }

  // ---------------------------------------------------------------------------
  // A name with an honorific: `エリオットさん` with catalog row `[エリオット, 艾利歐特]`
  // ---------------------------------------------------------------------------

  /** A text none of whose characters upper-cases to a placeholder letter keeps the whole alphabet. */
  lemma {:induction false} AlphabetUntouched(text: string)
    requires forall k :: 0 <= k < |text| ==> UpperAscii(text[k]) !in CodeLetters
    ensures Alphabet(text) == CodeLetters
    decreases |text|
  {
    if text != [] {
      var init := text[..|text| - 1];
      assert forall k :: 0 <= k < |init| ==> init[k] == text[k];
      AlphabetUntouched(init);
      WithoutAbsent(CodeLetters, UpperAscii(text[|text| - 1]));
    }
  }

  /** A character past the ASCII letters never upper-cases to a placeholder letter. */
  lemma BeyondAscii(c: char)
    requires c as int > 'z' as int
    ensures UpperAscii(c) !in CodeLetters
  {
  }

  /** No character of a name followed by `さん` upper-cases to a placeholder letter. */
  lemma HonorificChars(name: string)
    requires forall k :: 0 <= k < |name| ==> UpperAscii(name[k]) !in CodeLetters
    ensures forall k :: 0 <= k < |name + "さん"| ==> UpperAscii((name + "さん")[k]) !in CodeLetters
  {
    var h := "さん";
    BeyondAscii(h[0]);
    BeyondAscii(h[1]);
    var text := name + h;
    forall k | 0 <= k < |text| ensures UpperAscii(text[k]) !in CodeLetters {
      if k >= |name| {
        assert text[k] == h[k - |name|];
      } else {
        assert text[k] == name[k];
      }
    }
  }

  /** A name starting with a character that does not upper-case to `B` does not occur in `B`. */
  lemma FirstNotB(name: string)
    requires name != [] && UpperAscii(name[0]) !in CodeLetters
    ensures !Includes("B", name)
  {
    assert CodeLetters[0] == 'B';
    assert name[0] != 'B';
    NotIncludedFirst("B", name);
  }

  /** The check for `name` + `さん` takes the whole text. */
  lemma HonorificHit(name: string, rendering: string)
    requires name != []
    ensures TryRule(Encoded(name + "さん", []), CodeLetters, name + "さん", rendering, false)
         == Encoded("B", [Row("B", rendering)])
  {
    var text := name + "さん";
    IncludesAt(text, text, 0);
    ReplaceAllHead(text, [], "B");
    assert text + [] == text;
  }

  /**
    A name, none of whose characters upper-cases to a placeholder letter,
    followed by `さん`: the whole text becomes the first letter `B`, the table
    has the one row `[B, rendering]`, and decoding gives the rendering.
   */
  lemma HonorificName(name: string, rendering: string)
    requires name != []
    requires forall k :: 0 <= k < |name| ==> UpperAscii(name[k]) !in CodeLetters
    ensures Encode(name + "さん", Some([Row(name, rendering)])) == Encoded("B", [Row("B", rendering)])
    ensures ApplyRows("B", [Row("B", rendering)]) == rendering
  {
    HonorificChars(name);
    AlphabetUntouched(name + "さん");
    var row := Row(name, rendering);
    var a0 := Encoded(name + "さん", []);
    var a1 := Encoded("B", [Row("B", rendering)]);
    CatalogOfOne(a0, CodeLetters, row, false);
    FirstSuffixes();
    HonorificHit(name, rendering);
    ProtectNameStep(a0, CodeLetters, row, Suffixes(), 0, false);
    assert Suffixes()[0..] == Suffixes();
    FirstNotB(name);
    ProtectNameAbsent(a1, CodeLetters, row, Suffixes()[1..], false);
    ApplyOneRow("B", Row("B", rendering));
    ReplaceAllHead("B", [], rendering);
    assert "B" + [] == "B";
  }

  /** The checks before check `k` find nothing, so the name's checks start at check `k`. */
  lemma {:induction false} ProtectNameMisses(acc: Encoded, alphabet: string, entry: Row, suffixes: seq<Suffix>, k: nat, bounded: bool)
    requires k <= |suffixes|
    requires forall i :: 0 <= i < k ==> !Includes(acc.text, entry.search + suffixes[i].text)
    ensures ProtectName(acc, alphabet, entry, suffixes, bounded) == ProtectName(acc, alphabet, entry, suffixes[k..], bounded)
    decreases k
  {
    if k == 0 {
      assert suffixes[0..] == suffixes;
    } else {
      ProtectNameMisses(acc, alphabet, entry, suffixes, k - 1, bounded);
      ProtectNameStep(acc, alphabet, entry, suffixes, k - 1, bounded);
    }
  }

  /**
    The checks of one name on a fresh table: when check `k` is the first that
    hits and hiding it leaves no bare occurrence of the name, exactly one row is
    recorded, under the first letter of the alphabet.
   */
  lemma NameHitOnce(text: string, alphabet: string, entry: Row, suffixes: seq<Suffix>, k: nat)
    requires |alphabet| >= 1 && k < |suffixes|
    requires forall i :: 0 <= i < k ==> !Includes(text, entry.search + suffixes[i].text)
    requires Includes(text, entry.search + suffixes[k].text)
    requires !Includes(ReplaceAll(text, entry.search + suffixes[k].text, [alphabet[0]]), entry.search)
    ensures ProtectName(Encoded(text, []), alphabet, entry, suffixes, false)
         == Encoded(ReplaceAll(text, entry.search + suffixes[k].text, [alphabet[0]]),
                    [Row([alphabet[0]], Render(suffixes[k].form, entry.replacement))])
  {
    var a0 := Encoded(text, []);
    var hidden := Encoded(ReplaceAll(text, entry.search + suffixes[k].text, [alphabet[0]]),
                          [Row([alphabet[0]], Render(suffixes[k].form, entry.replacement))]);
    var pattern := entry.search + suffixes[k].text;
    var out := Render(suffixes[k].form, entry.replacement);
    assert Token(alphabet, 0) == [alphabet[0]];
    assert TryRule(a0, alphabet, pattern, out, false) == hidden;
    ProtectNameMisses(a0, alphabet, entry, suffixes, k, false);
    ProtectNameStep(a0, alphabet, entry, suffixes, k, false);
    ProtectNameAbsent(hidden, alphabet, entry, suffixes[k + 1..], false);
  }

  /** The first letter of a non-empty alphabet does not occur in the text. */
  lemma FirstLetterAbsent(text: string)
    requires |Alphabet(text)| >= 1
    ensures Alphabet(text)[0] !in text
  {
    AlphabetMembers(text);
    assert Alphabet(text)[0] in Alphabet(text);
    FreshNotInText(Alphabet(text)[0], text);
  }

  /** Decoding a pattern hidden behind a letter the text lacks replaces the pattern itself. */
  lemma DecodeHidden(text: string, name: string, suffix: string, c: char, out: string)
    requires name != [] && c !in text
    ensures ApplyRows(ReplaceAll(text, name + suffix, [c]), [Row([c], out)]) == ReplaceAll(text, name + suffix, out)
  {
    var pattern := name + suffix;
    assert pattern[0] == name[0];
    ApplyOneRow(ReplaceAll(text, pattern, [c]), Row([c], out));
    ReplaceThroughToken(text, pattern, c, out);
  }

  /**
    The round trip for a catalog of one name `[name, rendering]`, anywhere in
    any text: when check `k` (the name with suffix `k`) is the first that hits,
    and hiding that form leaves no bare occurrence of the name, the encoder
    records the one row `[letter, rendering as the suffix renders it]` under the
    first letter of the alphabet, and decoding replaces every occurrence of the
    name with that suffix by its rendering and changes nothing else.
   */
  lemma OneNameRoundTrip(text: string, name: string, rendering: string, k: nat)
    requires name != [] && |Alphabet(text)| >= 1 && k < |Suffixes()|
    requires forall i :: 0 <= i < k ==> !Includes(text, name + Suffixes()[i].text)
    requires Includes(text, name + Suffixes()[k].text)
    requires !Includes(ReplaceAll(text, name + Suffixes()[k].text, [Alphabet(text)[0]]), name)
    ensures var e := Encode(text, Some([Row(name, rendering)]));
      && e.table == [Row([Alphabet(text)[0]], Render(Suffixes()[k].form, rendering))]
      && ApplyRows(e.text, e.table) == ReplaceAll(text, name + Suffixes()[k].text, Render(Suffixes()[k].form, rendering))
  {
    var a := Alphabet(text);
    var row := Row(name, rendering);
    var suffixes := Suffixes();
    CatalogOfOne(Encoded(text, []), a, row, false);
    NameHitOnce(text, a, row, suffixes, k);
    FirstLetterAbsent(text);
    DecodeHidden(text, name, suffixes[k].text, a[0], Render(suffixes[k].form, rendering));
  }

  lemma ElliottChars()
    ensures forall k :: 0 <= k < |"エリオット"| ==> UpperAscii("エリオット"[k]) !in CodeLetters
    ensures "エリオット" + "さん" == "エリオットさん" && "エリオット" != []
  {
    var name := "エリオット";
    forall k | 0 <= k < |name| ensures UpperAscii(name[k]) !in CodeLetters {
      BeyondAscii(name[k]);
    }
  }

  /** The catalog example itself. */
  lemma ElliottExample()
    ensures Encode("エリオットさん", Some([Row("エリオット", "艾利歐特")])) == Encoded("B", [Row("B", "艾利歐特")])
    ensures ApplyRows("B", [Row("B", "艾利歐特")]) == "艾利歐特"
  {
    ElliottChars();
    HonorificName("エリオット", "艾利歐特");
  }

  // ---------------------------------------------------------------------------
  // Running out of letters inside one name
  // ---------------------------------------------------------------------------

  /** Twenty placeholder letters: a text holding them leaves only `Z` in the alphabet. */
  const Crowd: string := "BCDFGHJKLMNPQRSTVWXY"

  lemma OnlyLetter(s: string, c: char)
    requires Distinct(s)
    requires forall d :: d in s <==> d == c
    ensures s == [c]
  {
    DistinctElements(s);
    assert (set x | x in s) == {c};
    assert s[0] in s;
  }

  /** The twenty other letters are taken by a text that starts with them. */
  lemma CrowdTaken(x: string)
    requires |x| >= 20 && x[..20] == Crowd
    ensures forall c :: Fresh(c, x) ==> c == 'Z'
  {
    forall i | 0 <= i < 20 ensures !Fresh(CodeLetters[i], x) {
      assert x[i] == Crowd[i];
    }
  }

  /** `Z` is fresh for a text without `Z` or `z`. */
  lemma LastLetterFresh(x: string)
    requires 'Z' !in x && 'z' !in x
    ensures Fresh('Z', x)
  {
    forall k | 0 <= k < |x| ensures UpperAscii(x[k]) != 'Z' {
      assert x[k] in x;
    }
  }

  /** The twenty letters, then a tail without `Z` or `z`: the alphabet is `Z` alone. */
  lemma CrowdLeavesZ(tail: string)
    requires 'Z' !in tail && 'z' !in tail
    ensures Alphabet(Crowd + tail) == "Z"
  {
    var x := Crowd + tail;
    assert x[..20] == Crowd;
    assert 'Z' !in Crowd && 'z' !in Crowd;
    AlphabetMembers(x);
    CrowdTaken(x);
    LastLetterFresh(x);
    OnlyLetter(Alphabet(x), 'Z');
  }

  lemma CrowdAlphabet()
    ensures 'A' !in Crowd && 'Z' !in Crowd && 'u' !in Crowd
    ensures Alphabet(Crowd + "AさんAくんAちゃん") == "Z"
  {
    var tail := "AさんAくんAちゃん";
    assert 'Z' !in tail && 'z' !in tail;
    CrowdLeavesZ(tail);
  }

  /** The concatenations that build the checked patterns of the name `A`. */
  lemma Honorifics()
    ensures "A" + "さん" == "Aさん" && "A" + "くん" == "Aくん" && "A" + "君" == "A君" && "A" + "ちゃん" == "Aちゃん"
    ensures 'A' !in "undefined" && 'Z' !in "undefined" && "undefined" != [] && "undefined"[0] == 'u'
  {
  }

  /** `Aちゃん` holds neither `Aくん` nor `A君`. */
  lemma ChanHoldsNoOther()
    ensures !Includes("Aちゃん", "Aくん")
    ensures !Includes("Aちゃん", "A君")
  {
    var y := "Aちゃん";
    assert y[..2] != "A君" by { assert y[..2][1] == 'ち'; }
    assert y[..3] != "Aくん" by { assert y[..3][1] == 'ち'; }
    assert y[1..] == "ちゃん";
    if Includes("ちゃん", "A君") {
      IncludesFirstChar("ちゃん", "A君");
    }
    if Includes("ちゃん", "Aくん") {
      IncludesFirstChar("ちゃん", "Aくん");
    }
  }

  /** `Aちゃん` does not hold `Aさん`. */
  lemma ChanHoldsNoSan()
    ensures !Includes("Aちゃん", "Aさん")
  {
    var y := "Aちゃん";
    assert y[..3] != "Aさん" by { assert y[..3][1] == 'ち'; }
    assert y[1..] == "ちゃん";
    if Includes("ちゃん", "Aさん") {
      IncludesFirstChar("ちゃん", "Aさん");
    }
  }

  /** After the first hit, `Aさん` is not found again. */
  lemma TailHoldsNoSan()
    ensures !Includes("AくんAちゃん", "Aさん")
  {
    var y := "Aちゃん";
    var w := "AくんAちゃん";
    ChanHoldsNoSan();
    assert w[..3] != "Aさん" by { assert w[..3][1] == 'く'; }
    assert w[1..] == "くん" + y;
    IncludesSkip("くん", y, "Aさん");
  }

  /** The tail of the overflowing input, cut at its occurrences of `A`. */
  lemma TailPieces()
    ensures "AさんAくんAちゃん" == "Aさん" + "AくんAちゃん"
    ensures "AくんAちゃん" == "Aくん" + "Aちゃん"
    ensures 'Z' !in "AくんAちゃん"
  {
  }

  /** A hit on the occurrence that starts the text after `x`: it becomes the token. */
  lemma HitAfter(x: string, p: string, rest: string, token: string)
    requires p != [] && p[0] !in x
    ensures Includes(x + (p + rest), p)
    ensures ReplaceAll(x + (p + rest), p, token) == x + token + ReplaceAll(rest, p, token)
  {
    IncludesSkip(x, p + rest, p);
    IncludesAt(p + rest, p, 0);
    assert (p + rest)[0..|p|] == p;
    ReplaceAllSkip(x, p + rest, p, token);
    ReplaceAllHead(p, rest, token);
  }

  /** `Aさん` is found and becomes the one letter left. */
  lemma Try1(x: string, rendering: string, bounded: bool)
    requires 'A' !in x
    ensures TryRule(Encoded(x + "AさんAくんAちゃん", []), "Z", "A" + "さん", Render(Plain, rendering), bounded)
         == Encoded(x + "Z" + "AくんAちゃん", [Row("Z", rendering)])
  {
    Honorifics();
    TailPieces();
    TailHoldsNoSan();
    TryHit(x, "Aさん", "AくんAちゃん", "Z", rendering, bounded);
  }

  /** A check whose pattern occurs once, right after `x`, with one letter left: that occurrence becomes the letter. */
  lemma TryHit(x: string, p: string, rest: string, letter: string, rendering: string, bounded: bool)
    requires p != [] && p[0] !in x && !Includes(rest, p) && |letter| == 1
    ensures TryRule(Encoded(x + (p + rest), []), letter, p, rendering, bounded)
         == Encoded(x + letter + rest, [Row(letter, rendering)])
  {
    HitAfter(x, p, rest, letter);
    ReplaceAllAbsent(rest, p, letter);
    assert Token(letter, 0) == [letter[0]] == letter;
  }

  /** `Aくん` is found with the alphabet used up: its token is `undefined`. */
  lemma Try2(x: string, rendering: string)
    requires 'A' !in x
    ensures TryRule(Encoded(x + "Z" + "AくんAちゃん", [Row("Z", rendering)]), "Z", "A" + "くん", Render(Plain, rendering), false)
         == Encoded(x + "Z" + "undefined" + "Aちゃん", [Row("Z", rendering), Row("undefined", rendering)])
  {
    Honorifics();
    TailPieces();
    ChanHoldsNoOther();
    assert x + "Z" + "AくんAちゃん" == (x + "Z") + ("Aくん" + "Aちゃん");
    HitAfter(x + "Z", "Aくん", "Aちゃん", "undefined");
    ReplaceAllAbsent("Aちゃん", "Aくん", "undefined");
  }

  /** `A君` is not there; `Aちゃん` is, and gets `undefined` too. */
  lemma Try34(x: string, table: seq<Row>, rendering: string)
    requires 'A' !in x && |table| == 2
    ensures TryRule(Encoded(x + "Z" + "undefined" + "Aちゃん", table), "Z", "A" + "君", Render(Plain, rendering), false)
         == Encoded(x + "Z" + "undefined" + "Aちゃん", table)
    ensures TryRule(Encoded(x + "Z" + "undefined" + "Aちゃん", table), "Z", "A" + "ちゃん", Render(Before("小"), rendering), false)
         == Encoded(x + "Z" + "undefined" + "undefined", table + [Row("undefined", "小" + rendering)])
    ensures 'A' !in x + "Z" + "undefined" + "undefined"
  {
    Honorifics();
    ChanHoldsNoOther();
    var y := x + "Z" + "undefined";
    assert 'A' !in y;
    IncludesSkip(y, "Aちゃん", "A君");
    assert "Aちゃん" == "Aちゃん" + [];
    HitAfter(y, "Aちゃん", [], "undefined");
  }

  /** The checks at the head of a suffix table, as in `Suffixes()`. */
  predicate FirstChecks(s: seq<Suffix>)
  {
    |s| >= 4 && s[0] == Suffix("さん", Plain) && s[1] == Suffix("くん", Plain)
    && s[2] == Suffix("君", Plain) && s[3] == Suffix("ちゃん", Before("小"))
  }

  /** The check for `A君` after the first two hits finds nothing. */
  lemma OverflowKimi(x: string, table: seq<Row>, rendering: string, s: seq<Suffix>)
    requires 'A' !in x && |table| == 2 && FirstChecks(s)
    ensures ProtectName(Encoded(x + "Z" + "undefined" + "Aちゃん", table), "Z", Row("A", rendering), s[2..], false)
         == ProtectName(Encoded(x + "Z" + "undefined" + "Aちゃん", table), "Z", Row("A", rendering), s[3..], false)
  {
    Try34(x, table, rendering);
    ProtectNameStep(Encoded(x + "Z" + "undefined" + "Aちゃん", table), "Z", Row("A", rendering), s, 2, false);
  }

  /** The check for `Aちゃん` makes the third hit, and nothing after it finds the name. */
  lemma OverflowChan(x: string, table: seq<Row>, rendering: string, s: seq<Suffix>)
    requires 'A' !in x && |table| == 2 && FirstChecks(s)
    ensures ProtectName(Encoded(x + "Z" + "undefined" + "Aちゃん", table), "Z", Row("A", rendering), s[3..], false)
         == Encoded(x + "Z" + "undefined" + "undefined", table + [Row("undefined", "小" + rendering)])
  {
    var a2 := Encoded(x + "Z" + "undefined" + "Aちゃん", table);
    var a4 := Encoded(x + "Z" + "undefined" + "undefined", table + [Row("undefined", "小" + rendering)]);
    Try34(x, table, rendering);
    ProtectNameStep(a2, "Z", Row("A", rendering), s, 3, false);
    IncludesChar(a4.text, 'A');
    ProtectNameAbsent(a4, "Z", Row("A", rendering), s[4..], false);
  }

  /** The first two checks of the name `A` as written: two hits, the second past the alphabet. */
  lemma OverflowHead(x: string, rendering: string, s: seq<Suffix>)
    requires 'A' !in x && FirstChecks(s)
    ensures ProtectName(Encoded(x + "AさんAくんAちゃん", []), "Z", Row("A", rendering), s, false)
         == ProtectName(Encoded(x + "Z" + "undefined" + "Aちゃん", [Row("Z", rendering), Row("undefined", rendering)]),
                        "Z", Row("A", rendering), s[2..], false)
  {
    var row := Row("A", rendering);
    var a0 := Encoded(x + "AさんAくんAちゃん", []);
    var a1 := Encoded(x + "Z" + "AくんAちゃん", [Row("Z", rendering)]);
    Try1(x, rendering, false);
    Try2(x, rendering);
    assert s[0..] == s;
    ProtectNameStep(a0, "Z", row, s, 0, false);
    ProtectNameStep(a1, "Z", row, s, 1, false);
  }

  /** All checks of the name `A` as written: three hits, two of them past the alphabet. */
  lemma OverflowName(x: string, rendering: string, s: seq<Suffix>)
    requires 'A' !in x && FirstChecks(s)
    ensures ProtectName(Encoded(x + "AさんAくんAちゃん", []), "Z", Row("A", rendering), s, false)
         == Encoded(x + "Z" + "undefined" + "undefined",
                    [Row("Z", rendering), Row("undefined", rendering), Row("undefined", "小" + rendering)])
  {
    var table := [Row("Z", rendering), Row("undefined", rendering)];
    OverflowHead(x, rendering, s);
    OverflowKimi(x, table, rendering, s);
    OverflowChan(x, table, rendering, s);
  }

  lemma OverflowEntry(x: string, rendering: string)
    requires 'A' !in x
    ensures ProtectEntry(Encoded(x + "AさんAくんAちゃん", []), "Z", Row("A", rendering), false)
         == Encoded(x + "Z" + "undefined" + "undefined",
                    [Row("Z", rendering), Row("undefined", rendering), Row("undefined", "小" + rendering)])
  {
    FirstSuffixes();
    OverflowName(x, rendering, Suffixes());
  }

  /** With the bounded encoder, every check after the last letter is handed out does nothing. */
  lemma {:induction false} ProtectNameFull(acc: Encoded, alphabet: string, entry: Row, suffixes: seq<Suffix>)
    requires |acc.table| >= |alphabet|
    ensures ProtectName(acc, alphabet, entry, suffixes, true) == acc
    decreases |suffixes|
  {
    if suffixes != [] {
      ProtectNameFull(acc, alphabet, entry, suffixes[1..]);
    }
  }

  /** All checks of the name `A` with the bounded encoder: one hit, then the letters are used up. */
  lemma BoundedEntry(x: string, rendering: string)
    requires 'A' !in x
    ensures ProtectEntry(Encoded(x + "AさんAくんAちゃん", []), "Z", Row("A", rendering), true)
         == Encoded(x + "Z" + "AくんAちゃん", [Row("Z", rendering)])
  {
    var row := Row("A", rendering);
    var s := Suffixes();
    var a0 := Encoded(x + "AさんAくんAちゃん", []);
    var a1 := Encoded(x + "Z" + "AくんAちゃん", [Row("Z", rendering)]);
    FirstSuffixes();
    Try1(x, rendering, true);
    assert s[0..] == s;
    ProtectNameStep(a0, "Z", row, s, 0, true);
    ProtectNameFull(a1, "Z", row, s[1..]);
  }

  lemma ApplyOneRow(text: string, r: Row)
    ensures ApplyRows(text, [r]) == ReplaceAll(text, r.search, r.replacement)
  {
    assert [r][1..] == [];
  }

  lemma ApplyThreeRows(text: string, r1: Row, r2: Row, r3: Row)
    ensures ApplyRows(text, [r1, r2, r3])
         == ReplaceAll(ReplaceAll(ReplaceAll(text, r1.search, r1.replacement), r2.search, r2.replacement), r3.search, r3.replacement)
  {
    assert [r1, r2, r3][1..] == [r2, r3];
    assert [r2, r3][1..] == [r3];
    ApplyOneRow(ReplaceAll(ReplaceAll(text, r1.search, r1.replacement), r2.search, r2.replacement), r3);
  }

  /** The letter row restores the first hit. */
  lemma DecodeLetter(x: string, u: string, r: string)
    requires 'Z' !in x && 'Z' !in u
    ensures ReplaceAll(x + "Z" + u + u, "Z", r) == x + r + u + u
  {
    assert x + "Z" + u + u == x + ("Z" + (u + u));
    HitAfter(x, "Z", u + u, r);
    IncludesChar(u + u, 'Z');
    ReplaceAllAbsent(u + u, "Z", r);
    assert x + r + (u + u) == x + r + u + u;
  }

  /** The first `undefined` row restores both later hits with its own rendering. */
  lemma DecodeFirstToken(x: string, u: string, r: string)
    requires u != [] && u[0] !in x && u[0] !in r
    ensures ReplaceAll(x + r + u + u, u, r) == x + r + r + r
  {
    var y := x + r;
    assert u[0] !in y;
    assert x + r + u + u == y + (u + u);
    HitAfter(y, u, u, r);
    assert u == u + [];
    HitAfter([], u, [], r);
    assert [] + (u + []) == u;
    assert ReplaceAll([], u, r) == [];
  }

  /** The last row finds no token left. */
  lemma DecodeNothingLeft(x: string, u: string, r: string)
    requires u != [] && u[0] !in x && u[0] !in r
    ensures ReplaceAll(x + r + r + r, u, "小" + r) == x + r + r + r
  {
    assert x + r + r + r == x + (r + r + r);
    IncludesSkip(x, r + r + r, u);
    if Includes(r + r + r, u) {
      IncludesFirstChar(r + r + r, u);
    }
    ReplaceAllAbsent(x + r + r + r, u, "小" + r);
  }

  /**
    Decoding the overflowed table: the letter row restores the first hit, the
    first `undefined` row then restores both other hits with its own
    rendering, and the last row finds nothing left.
   */
  lemma DecodeOverflow(x: string, u: string, r: string)
    requires u != [] && 'Z' !in x && 'Z' !in u && u[0] !in x && u[0] !in r
    ensures ApplyRows(x + "Z" + u + u, [Row("Z", r), Row(u, r), Row(u, "小" + r)]) == x + r + r + r
  {
    ApplyThreeRows(x + "Z" + u + u, Row("Z", r), Row(u, r), Row(u, "小" + r));
    DecodeLetter(x, u, r);
    DecodeFirstToken(x, u, r);
    DecodeNothingLeft(x, u, r);
  }

  /**
    The encoder as written, on any prefix that leaves only `Z` in the alphabet:
    the second and third hit get the token `undefined`, and decoding writes the
    first rendering for both of them, so the `ちゃん` form (`小` + rendering) is lost.
   */
  lemma OverflowRoundTrip(x: string, r: string)
    requires 'A' !in x && 'Z' !in x && 'u' !in x && 'u' !in r
    requires Alphabet(x + "AさんAくんAちゃん") == "Z"
    ensures Encode(x + "AさんAくんAちゃん", Some([Row("A", r)]))
         == Encoded(x + "Z" + "undefined" + "undefined", [Row("Z", r), Row("undefined", r), Row("undefined", "小" + r)])
    ensures ApplyRows(x + "Z" + "undefined" + "undefined", [Row("Z", r), Row("undefined", r), Row("undefined", "小" + r)])
         == x + r + r + r
    ensures x + r + r + r != x + r + r + ("小" + r)
  {
    var a0 := Encoded(x + "AさんAくんAちゃん", []);
    CatalogOfOne(a0, "Z", Row("A", r), false);
    OverflowEntry(x, r);
    Honorifics();
    DecodeOverflow(x, "undefined", r);
    assert |x + r + r + r| != |x + r + r + ("小" + r)|;
  }

  /** The one letter row of the bounded table restores the one hit. */
  lemma DecodeBounded(x: string, rest: string, r: string)
    requires 'Z' !in x && 'Z' !in rest
    ensures ApplyRows(x + "Z" + rest, [Row("Z", r)]) == x + r + rest
  {
    ApplyOneRow(x + "Z" + rest, Row("Z", r));
    assert x + "Z" + rest == x + ("Z" + rest);
    HitAfter(x, "Z", rest, r);
    IncludesChar(rest, 'Z');
    ReplaceAllAbsent(rest, "Z", r);
  }

  /**
    The bounded encoder on the same input hides only the first hit; decoding
    restores it and leaves the other two occurrences as they were.
   */
  lemma BoundedRoundTrip(x: string, r: string)
    requires 'A' !in x && 'Z' !in x
    requires Alphabet(x + "AさんAくんAちゃん") == "Z"
    ensures EncodeBounded(x + "AさんAくんAちゃん", Some([Row("A", r)])) == Encoded(x + "Z" + "AくんAちゃん", [Row("Z", r)])
    ensures ApplyRows(x + "Z" + "AくんAちゃん", [Row("Z", r)]) == x + r + "AくんAちゃん"
  {
    var a0 := Encoded(x + "AさんAくんAちゃん", []);
    CatalogOfOne(a0, "Z", Row("A", r), true);
    BoundedEntry(x, r);
    TailPieces();
    DecodeBounded(x, "AくんAちゃん", r);
  }

  /** The input that shows it: the twenty letters `B` to `Y`, then `AさんAくんAちゃん`, with the catalog row `[A, 甲]`. */
  lemma CrowdOverflows()
    ensures Encode(Crowd + "AさんAくんAちゃん", Some([Row("A", "甲")])).table
         == [Row("Z", "甲"), Row("undefined", "甲"), Row("undefined", "小" + "甲")]
    ensures EncodeBounded(Crowd + "AさんAくんAちゃん", Some([Row("A", "甲")])).table == [Row("Z", "甲")]
  {
    CrowdAlphabet();
    OverflowRoundTrip(Crowd, "甲");
    BoundedRoundTrip(Crowd, "甲");
  }
}
