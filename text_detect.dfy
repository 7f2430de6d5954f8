/**
  src/module/system/text-detect-module.js: the renderer-side OCR pipeline.
  `fixText` normalises recognised text (newlines, Japanese punctuation,
  tesseract misreadings); `translateImageText` cuts it into lines and queues
  every non-empty one as a dialogue entry with code `003D`;
  `startReconizing` strings the two together on a capture.
 */
module TextDetect {
  import opened Optional
  import opened JsString
  import opened Rewrite
  import opened OcrRules
  import opened FixEntry

  /** The Japanese punctuation chain of `fixText`, in source order. */
  function JapaneseRows(): seq<Row>
  {
    [ Row(" ", ""), Row("...", "…"), Row("..", "…"), Row("･･･", "…"), Row("･･", "…"), Row("･", "・"),
      Row("・・・", "…"), Row("・・", "…"), Row("､", "、"), Row("?", "？"), Row("!", "！"), Row("~", "～"),
      Row(":", "："), Row("=", "＝"), Row("『", "「"), Row("』", "」") ]
  }

  /** The tesseract chain of `fixText`: misread characters and words. */
  function TesseractFix(text: string): string
  {
    ReplaceAll(WordFix(IsolatedDots(ReplaceAll(text, "`", "「"))), "倫成", "賛成")
  }

  /**
    `fixText(captureData)`: one pass of `\n\n` → `\n`; the Japanese chain when
    the source language is Japanese; the tesseract chain unless the capture
    was read by Google Vision.
   */
  function FixText(text: string, from: string, captureType: string, languages: Languages): string
  {
    var lines := ReplaceAll(text, "\n\n", "\n");
    var japanese := if from == languages.ja then ApplyRows(lines, JapaneseRows()) else lines;
    if captureType != "google-vision" then TesseractFix(japanese) else japanese
  }

  /** The newline pass is a single non-overlapping `replaceAll`: three newlines become two, and a second pass changes them again. */
  lemma NewlinePassOnce()
    ensures ReplaceAll("\n\n\n", "\n\n", "\n") == "\n\n"
    ensures ReplaceAll("\n\n", "\n\n", "\n") == "\n"
  {
    ReplaceAllHead("\n\n", "\n", "\n");
    ReplaceAllHead("\n\n", [], "\n");
    assert "\n\n\n" == "\n\n" + "\n";
    assert "\n\n" == "\n\n" + [];
  }

  /** Every character the tesseract chain writes. */
  const TesseractWrites: string := "「、ガンブレイカー闇士賛成"

  lemma TesseractFixChars(text: string)
    ensures forall c :: c in TesseractFix(text) ==> c in text || c in TesseractWrites
  {
    var commas := IsolatedDots(ReplaceAll(text, "`", "「"));
    ReplaceAllChars(text, "`", "「");
    WordFixChars(commas);
    ReplaceAllChars(WordFix(commas), "倫成", "賛成");
    forall c | c in WordFixWrites ensures c in TesseractWrites {
      assert c in "ガンブレイカー闇士";
    }
  }

  /** One of the ASCII or full-width marks that the Japanese chain replaces one for one. */
  predicate JapaneseRemoves(c: char)
  {
    c == ' ' || c == '?' || c == '!' || c == '~' || c == ':' || c == '=' || c == '『' || c == '』'
  }

  /** The row of the Japanese chain that replaces `c` alone, for each removed mark. */
  function RowOf(c: char): (k: nat)
    requires JapaneseRemoves(c) || c == '･'
    ensures k < |JapaneseRows()| && JapaneseRows()[k].search == [c]
  {
    if c == ' ' then 0 else if c == '?' then 9 else if c == '!' then 10 else if c == '~' then 11
    else if c == ':' then 12 else if c == '=' then 13 else if c == '『' then 14 else if c == '』' then 15 else 5
  }

  /** No replacement of the Japanese chain writes a removed mark or a half-width dot. */
  lemma JapaneseRowsWrite(c: char)
    requires JapaneseRemoves(c) || c == '･'
    ensures NoRowWrites(JapaneseRows(), c)
  {
    var rows := JapaneseRows();
    forall k | 0 <= k < |rows| ensures c !in rows[k].replacement {
      assert rows[k].replacement in ["", "…", "・", "、", "？", "！", "～", "：", "＝", "「", "」"];
    }
  }

  /** The tesseract chain writes none of those marks. */
  lemma MarksNotWritten(c: char)
    requires JapaneseRemoves(c) || c == '･'
    ensures c !in TesseractWrites
  {
  }

  /** A character the tesseract chain never writes stays out of its result. */
  lemma TesseractKeepsOut(text: string, c: char)
    requires c !in text && c !in TesseractWrites
    ensures c !in TesseractFix(text)
  {
    TesseractFixChars(text);
  }

  /**
    For a Japanese source the normalised text has no ASCII space, `?`, `!`,
    `~`, `:`, `=`, `『` or `』`, whatever the OCR backend: the Japanese chain
    replaces them and no later rule writes them back.
   */
  lemma JapaneseMarksGone(text: string, captureType: string, languages: Languages, c: char)
    requires JapaneseRemoves(c)
    ensures c !in FixText(text, languages.ja, captureType, languages)
  {
    var lines := ReplaceAll(text, "\n\n", "\n");
    JapaneseRowsWrite(c);
    ApplyRowsRemoves(lines, JapaneseRows(), RowOf(c), c);
    if captureType != "google-vision" {
      MarksNotWritten(c);
      TesseractKeepsOut(ApplyRows(lines, JapaneseRows()), c);
    }
  }

  /** For a Japanese source no half-width `･` survives: runs of it become `…`, a single one `・`. */
  lemma HalfWidthDotsGone(text: string, captureType: string, languages: Languages)
    ensures '･' !in FixText(text, languages.ja, captureType, languages)
  {
    var lines := ReplaceAll(text, "\n\n", "\n");
    JapaneseRowsWrite('･');
    ApplyRowsRemoves(lines, JapaneseRows(), RowOf('･'), '･');
    if captureType != "google-vision" {
      MarksNotWritten('･');
      TesseractKeepsOut(ApplyRows(lines, JapaneseRows()), '･');
    }
  }

  /** With Google Vision the tesseract chain is skipped: a back-quote or a `・` in a non-Japanese text survives. */
  lemma GoogleSkipsTesseract(text: string, from: string, languages: Languages, c: char)
    requires from != languages.ja && (c == '`' || c == '・') && c in text
    ensures FixText(text, from, "google-vision", languages) == ReplaceAll(text, "\n\n", "\n")
    ensures c in FixText(text, from, "google-vision", languages)
  {
    ReplaceAllKeepsChar(text, "\n\n", "\n", c);
  }

  /** The word fixes never write a back-quote. */
  lemma BackQuoteNotWritten()
    ensures '`' !in WordFixWrites
  {
  }

  /** With any other backend no back-quote is left: each became `「`. */
  lemma TesseractQuotesGone(text: string, from: string, captureType: string, languages: Languages)
    requires captureType != "google-vision"
    ensures '`' !in FixText(text, from, captureType, languages)
  {
    var lines := ReplaceAll(text, "\n\n", "\n");
    var japanese := if from == languages.ja then ApplyRows(lines, JapaneseRows()) else lines;
    var commas := IsolatedDots(ReplaceAll(japanese, "`", "「"));
    ReplaceAllRemovesChar(japanese, '`', "「");
    WordFixChars(commas);
    BackQuoteNotWritten();
    ReplaceAllChars(WordFix(commas), "倫成", "賛成");
  }

  /** The tesseract chain creates no occurrence of a string none of whose characters it writes. */
  lemma TesseractNoNew(text: string, q: string)
    requires q != [] && forall c :: c in q ==> c !in TesseractWrites
    ensures Includes(TesseractFix(text), q) ==> Includes(text, q)
  {
    var quoted := ReplaceAll(text, "`", "「");
    var commas := IsolatedDots(quoted);
    var words := WordFix(commas);
    assert forall c :: c in WordFixWrites ==> c in TesseractWrites;
    assert '「' in TesseractWrites && '、' in TesseractWrites && '賛' in TesseractWrites && '成' in TesseractWrites;
    DisjointApart(q, "「");
    DisjointApart(q, "賛成");
    WordFixNoNew(commas, q);
    if Includes(TesseractFix(text), q) {
      ReplaceAllNoNew(words, "倫成", "賛成", q);
      PointwiseNoNew(commas, quoted, '、', q);
      ReplaceAllNoNew(text, "`", "「", q);
    }
  }

  /**
    With any backend but Google Vision, no misread gunbreaker (`ガンプレイカー`,
    `ガンプブレイカー`) and no `倫成` is left: each became its corrected word.
   */
  lemma TesseractWordsFixed(text: string, from: string, captureType: string, languages: Languages)
    requires captureType != "google-vision"
    ensures !Includes(FixText(text, from, captureType, languages), "ガンプレイカー")
    ensures !Includes(FixText(text, from, captureType, languages), "ガンプブレイカー")
    ensures !Includes(FixText(text, from, captureType, languages), "倫成")
  {
    var lines := ReplaceAll(text, "\n\n", "\n");
    var japanese := if from == languages.ja then ApplyRows(lines, JapaneseRows()) else lines;
    var words := WordFix(IsolatedDots(ReplaceAll(japanese, "`", "「")));
    WordFixGunbreaker(IsolatedDots(ReplaceAll(japanese, "`", "「")));
    SeiApart();
    ReplaceAllClears(words, "倫成", "賛成");
    if Includes(ReplaceAll(words, "倫成", "賛成"), "ガンプレイカー") {
      ReplaceAllNoNew(words, "倫成", "賛成", "ガンプレイカー");
    }
    if Includes(ReplaceAll(words, "倫成", "賛成"), "ガンプブレイカー") {
      ReplaceAllNoNew(words, "倫成", "賛成", "ガンプブレイカー");
    }
  }

  /** `倫成` and the gunbreaker misreadings cannot overlap a written `賛成`. */
  lemma SeiApart()
    ensures Apart("倫成", "賛成") && Apart("ガンプレイカー", "賛成") && Apart("ガンプブレイカー", "賛成")
  {
    DisjointApart("ガンプレイカー", "賛成");
    DisjointApart("ガンプブレイカー", "賛成");
    assert "倫成"[0] != "賛成"[0];
  }

  /** Row 2 of the Japanese chain replaces `..`, and no later row writes a `.`. */
  lemma PeriodRows()
    ensures JapaneseRows()[2] == Row("..", "…") && Apart("..", "…")
    ensures forall k :: 3 <= k < |JapaneseRows()| ==> JapaneseRows()[k].search != [] && Apart("..", JapaneseRows()[k].replacement)
  {
    var rows := JapaneseRows();
    DisjointApart("..", "…");
    forall k | 3 <= k < |rows| ensures rows[k].search != [] && Apart("..", rows[k].replacement) {
      assert rows[k].replacement in ["…", "・", "、", "？", "！", "～", "：", "＝", "「", "」"];
      DisjointApart("..", rows[k].replacement);
    }
  }

  /** Row 7 of the Japanese chain replaces `・・`, and no later row writes a `・`. */
  lemma MiddleDotRows()
    ensures JapaneseRows()[7] == Row("・・", "…") && Apart("・・", "…")
    ensures forall k :: 8 <= k < |JapaneseRows()| ==> JapaneseRows()[k].search != [] && Apart("・・", JapaneseRows()[k].replacement)
  {
    var rows := JapaneseRows();
    DisjointApart("・・", "…");
    forall k | 8 <= k < |rows| ensures rows[k].search != [] && Apart("・・", rows[k].replacement) {
      assert rows[k].replacement in ["、", "？", "！", "～", "：", "＝", "「", "」"];
      DisjointApart("・・", rows[k].replacement);
    }
  }

  /** Neither dot run holds a character the tesseract chain writes. */
  lemma DotRunsNotWritten()
    ensures forall c :: c in ".." ==> c !in TesseractWrites
    ensures forall c :: c in "・・" ==> c !in TesseractWrites
  {
    assert '.' !in TesseractWrites && '・' !in TesseractWrites;
  }

  /**
    For a Japanese source no run of two dots is left, whatever the backend:
    `...` and `..` became `…` in that order, so did `・・・` and `・・`, and no
    later rule writes a `.` or a `・` next to another.
   */
  lemma JapaneseDotRuns(text: string, captureType: string, languages: Languages)
    ensures !Includes(FixText(text, languages.ja, captureType, languages), "..")
    ensures !Includes(FixText(text, languages.ja, captureType, languages), "・・")
  {
    var lines := ReplaceAll(text, "\n\n", "\n");
    var japanese := ApplyRows(lines, JapaneseRows());
    JapaneseChainPeriods(lines);
    JapaneseChainMiddleDots(lines);
    if captureType != "google-vision" {
      DotRunsNotWritten();
      TesseractNoNew(japanese, "..");
      TesseractNoNew(japanese, "・・");
    }
  }

  /** The Japanese chain itself leaves no `..`. */
  lemma JapaneseChainPeriods(lines: string)
    ensures !Includes(ApplyRows(lines, JapaneseRows()), "..")
  {
    PeriodRows();
    ClearedAndKept(lines, JapaneseRows(), 3, "..");
  }

  /** The Japanese chain itself leaves no `・・`. */
  lemma JapaneseChainMiddleDots(lines: string)
    ensures !Includes(ApplyRows(lines, JapaneseRows()), "・・")
  {
    MiddleDotRows();
    ClearedAndKept(lines, JapaneseRows(), 8, "・・");
  }

  /** Row `n - 1` replaces `q` by `…` and no later row can write `q` back: the table leaves no `q`. */
  lemma ClearedAndKept(lines: string, rows: seq<Row>, n: nat, q: string)
    requires 1 <= n <= |rows| && rows[n - 1] == Row(q, "…") && Apart(q, "…")
    requires forall k :: n <= k < |rows| ==> rows[k].search != [] && Apart(q, rows[k].replacement)
    ensures !Includes(ApplyRows(lines, rows), q)
  {
    var before := rows[..n - 1];
    var after := rows[n..];
    assert rows == before + [rows[n - 1]] + after;
    ApplyRowsConcat(lines, before + [rows[n - 1]], after);
    ApplyRowsConcat(lines, before, [rows[n - 1]]);
    var head := ApplyRows(lines, before);
    assert ApplyRows(head, [rows[n - 1]]) == ReplaceAll(head, q, "…") by {
      assert [rows[n - 1]][1..] == [];
    }
    ReplaceAllClears(head, q, "…");
    if Includes(ApplyRows(lines, rows), q) {
      ApplyRowsNoNew(ReplaceAll(head, q, "…"), after, q);
    }
  }

  // ---------------------------------------------------------------------------
  // translateImageText
  // ---------------------------------------------------------------------------

  /**
    The lines of `translateImageText`: every line in split mode; otherwise one
    line, with newlines dropped for Japanese and turned into spaces (then one
    pass of `'  '` → `' '`) for other languages.
   */
  function Pieces(text: string, split: bool, japanese: bool): (r: seq<string>)
    ensures |r| >= 1
    ensures split ==> Join(r, "\n") == text
    ensures !split ==> |r| == 1 && '\n' !in r[0]
    ensures !split && japanese ==> r == [Without(text, '\n')]
    ensures !split && !japanese ==> r == [ReplaceAll(Swapped(text, '\n', ' '), "  ", " ")]
  {
    if split then
      JoinSplit(text, '\n');
      Split(text, '\n')
    else if japanese then
      ReplaceAllRemovesChar(text, '\n', "");
      ReplaceCharByNothing(text, '\n');
      [ReplaceAll(text, "\n", "")]
    else
      var spaced := ReplaceAll(text, "\n", " ");
      ReplaceAllRemovesChar(text, '\n', " ");
      ReplaceCharByChar(text, '\n', ' ');
      ReplaceAllChars(spaced, "  ", " ");
      [ReplaceAll(spaced, "  ", " ")]
  }

  /** A capture: the recognised text and the settings that steer the pipeline. */
  class CaptureData {
    var text: string
    var from: string
    var captureType: string
    var split: bool
    var edit: bool

    constructor (from: string, captureType: string, split: bool, edit: bool)
      ensures text == "" && this.from == from && this.captureType == captureType
      ensures this.split == split && this.edit == edit
    {
      text := "";
      this.from := from;
      this.captureType := captureType;
      this.split := split;
      this.edit := edit;
    }
  }

  /** `d` is the entry `{code: '003D', name: '', text}` built for an OCR line. */
  predicate OcrEntry(d: DialogData, text: string)
    reads d
  {
    d.code == "003D" && d.name == "" && d.text == text && d.id == "" && d.timestamp == 0 && d.translation.None?
  }

  /** The queued entries after `start` hold exactly `lines`, in order, as OCR entries. */
  ghost predicate QueuedAfter(items: seq<DialogData>, start: nat, lines: seq<string>)
    reads items
  {
    start + |lines| == |items| && forall k :: 0 <= k < |lines| ==> OcrEntry(items[start + k], lines[k])
  }

  /**
    `translateImageText(captureData)`: every non-empty line is queued, in
    order, as `{code: '003D', name: '', text}`; nothing else in the queue
    changes.
   */
  method TranslateImageText(capture: CaptureData, queue: EntryQueue, languages: Languages)
    modifies queue
    ensures |old(queue.items)| <= |queue.items| && queue.items[..|old(queue.items)|] == old(queue.items)
    ensures QueuedAfter(queue.items, |old(queue.items)|,
                        NonEmpty(Pieces(capture.text, capture.split, capture.from == languages.ja)))
  {
    var stringArray := Pieces(capture.text, capture.split, capture.from == languages.ja);
    ghost var start := |queue.items|;
    for index := 0 to |stringArray|
      invariant start <= |queue.items| && queue.items[..start] == old(queue.items)
      invariant QueuedAfter(queue.items, start, NonEmpty(stringArray[..index]))
    {
      NonEmptyStep(stringArray, index);
      var text := stringArray[index];
      if text != "" {
        ghost var before := queue.items;
        EnqueueLine(queue, text, start, NonEmpty(stringArray[..index]));
        assert queue.items[..start] == queue.items[..|before|][..start];
      } else {
        assert NonEmpty(stringArray[..index + 1]) == NonEmpty(stringArray[..index]) + [];
      }
    }
    assert stringArray[..|stringArray|] == stringArray;
  }

  /** The loop body for a non-empty line: `addTask({code: '003D', name: '', text})`. */
  method EnqueueLine(queue: EntryQueue, text: string, ghost start: nat, ghost lines: seq<string>)
    modifies queue
    requires QueuedAfter(queue.items, start, lines)
    ensures |queue.items| == |old(queue.items)| + 1 && queue.items[..|old(queue.items)|] == old(queue.items)
    ensures fresh(queue.items[|old(queue.items)|])
    ensures QueuedAfter(queue.items, start, lines + [text])
  {
    var dialogData := new DialogData("003D", "", text, "", 0, None);
    ghost var before := queue.items;
    queue.AddTask(dialogData);
    forall k | 0 <= k < |lines| + 1
      ensures OcrEntry(queue.items[start + k], (lines + [text])[k])
    {
      if k < |lines| {
        assert queue.items[start + k] == before[start + k];
      }
    }
  }

  /**
    `startReconizing(captureData)` once the OCR backend has answered `ocrText`:
    an empty result stops; otherwise the text is normalised and, unless the
    capture is opened for editing, its lines are queued.
   */
  method StartRecognizing(capture: CaptureData, ocrText: string, queue: EntryQueue, languages: Languages)
    modifies capture, queue
    ensures capture.from == old(capture.from) && capture.captureType == old(capture.captureType)
    ensures capture.split == old(capture.split) && capture.edit == old(capture.edit)
    ensures capture.text == (if ocrText == "" then "" else FixText(ocrText, capture.from, capture.captureType, languages))
    ensures ocrText == "" || capture.edit ==> queue.items == old(queue.items)
    ensures ocrText != "" && !capture.edit ==>
      && |old(queue.items)| <= |queue.items| && queue.items[..|old(queue.items)|] == old(queue.items)
      && QueuedAfter(queue.items, |old(queue.items)|,
                     NonEmpty(Pieces(capture.text, capture.split, capture.from == languages.ja)))
  {
    capture.text := "";
    capture.text := ocrText;
    if capture.text == "" {
      return;
    }
    capture.text := FixText(capture.text, capture.from, capture.captureType, languages);
    if capture.edit {
      return;
    }
    TranslateImageText(capture, queue, languages);
  }
}
