/**
  src/main_modules/system/text-detect-module.js: the main-process OCR
  pipeline. `fixImageText` cleans the recognised text under the capture
  settings; unless the capture is opened for editing, `translateImageText`
  cuts it into lines and hands every non-empty one, in order, to the
  correction entry as `{code: '003D', name: '', text}`.
 */
module MainTextDetect {
  import opened JsString
  import opened OcrRules
  import opened FixEntry

  /** The configuration fields the pipeline reads: `translation.from` and `captureWindow.{type, split, edit}`. */
  datatype CaptureConfig = CaptureConfig(from: string, captureType: string, split: bool, edit: bool)

  /** A dialogue entry handed to the correction entry. */
  datatype Line = Line(code: string, name: string, text: string)

  /**
    `fixImageText(text)`: unless the source is the literal `'Japanese'`,
    ellipses and `=` are replaced; unless the capture type is `'google'`,
    spaces are dropped for a Japanese source (`languages.ja`), then one pass
    of `\n\n` → `\n`, the back-quote and the word fixes.
   */
  function FixImageText(text: string, config: CaptureConfig, languages: Languages): string
  {
    var marks := if config.from != "Japanese"
      then ReplaceAll(ReplaceAll(ReplaceAll(text, "...", "…"), "・・・", "…"), "=", "＝")
      else text;
    if config.captureType != "google" then
      var spaced := if config.from == languages.ja then ReplaceAll(marks, " ", "") else marks;
      WordFix(ReplaceAll(ReplaceAll(spaced, "\n\n", "\n"), "`", "「"))
    else marks
  }

  /** None of the marks the first step writes is `=`, a space or a back-quote. */
  lemma MarkWrites(c: char)
    requires c == '=' || c == ' ' || c == '`'
    ensures c !in "…" && c !in "＝" && c !in "「" && c !in WordFixWrites
  {
  }

  /** The newline pass, the back-quote and the word fixes never write `=`, a space or a back-quote. */
  lemma CleanupKeepsOut(spaced: string, c: char)
    requires c == '=' || c == ' ' || c == '`'
    requires c !in spaced
    ensures c !in WordFix(ReplaceAll(ReplaceAll(spaced, "\n\n", "\n"), "`", "「"))
  {
    var lines := ReplaceAll(spaced, "\n\n", "\n");
    MarkWrites(c);
    ReplaceAllChars(spaced, "\n\n", "\n");
    ReplaceAllChars(lines, "`", "「");
    WordFixChars(ReplaceAll(lines, "`", "「"));
  }

  /** When the source is not the literal `'Japanese'`, no `=` is left: each became `＝`. */
  lemma NoEqualsUnlessJapanese(text: string, config: CaptureConfig, languages: Languages)
    requires config.from != "Japanese"
    ensures '=' !in FixImageText(text, config, languages)
  {
    var dots := ReplaceAll(ReplaceAll(text, "...", "…"), "・・・", "…");
    var marks := ReplaceAll(dots, "=", "＝");
    ReplaceAllRemovesChar(dots, '=', "＝");
    if config.captureType != "google" {
      MarkWrites('=');
      if config.from == languages.ja {
        ReplaceAllChars(marks, " ", "");
      }
      CleanupKeepsOut(if config.from == languages.ja then ReplaceAll(marks, " ", "") else marks, '=');
    }
  }

  /** A non-Google capture keeps no misread gunbreaker: both became `ガンブレイカー`. */
  lemma NoGunbreakerMisreadings(text: string, config: CaptureConfig, languages: Languages)
    requires config.captureType != "google"
    ensures !Includes(FixImageText(text, config, languages), "ガンプレイカー")
    ensures !Includes(FixImageText(text, config, languages), "ガンプブレイカー")
  {
    var marks := if config.from != "Japanese"
      then ReplaceAll(ReplaceAll(ReplaceAll(text, "...", "…"), "・・・", "…"), "=", "＝")
      else text;
    var spaced := if config.from == languages.ja then ReplaceAll(marks, " ", "") else marks;
    WordFixGunbreaker(ReplaceAll(ReplaceAll(spaced, "\n\n", "\n"), "`", "「"));
  }

  /** A non-Google capture from a Japanese source keeps no ASCII space. */
  lemma NoSpacesForJapanese(text: string, config: CaptureConfig, languages: Languages)
    requires config.captureType != "google" && config.from == languages.ja
    ensures ' ' !in FixImageText(text, config, languages)
  {
    var marks := if config.from != "Japanese"
      then ReplaceAll(ReplaceAll(ReplaceAll(text, "...", "…"), "・・・", "…"), "=", "＝")
      else text;
    ReplaceAllRemovesChar(marks, ' ', "");
    CleanupKeepsOut(ReplaceAll(marks, " ", ""), ' ');
  }

  /** A non-Google capture keeps no back-quote: each became `「`. */
  lemma NoBackQuoteUnlessGoogle(text: string, config: CaptureConfig, languages: Languages)
    requires config.captureType != "google"
    ensures '`' !in FixImageText(text, config, languages)
  {
    var marks := if config.from != "Japanese"
      then ReplaceAll(ReplaceAll(ReplaceAll(text, "...", "…"), "・・・", "…"), "=", "＝")
      else text;
    var spaced := if config.from == languages.ja then ReplaceAll(marks, " ", "") else marks;
    var lines := ReplaceAll(spaced, "\n\n", "\n");
    ReplaceAllRemovesChar(lines, '`', "「");
    MarkWrites('`');
    WordFixChars(ReplaceAll(lines, "`", "「"));
  }

  /** A Google capture of a Japanese source is left exactly as recognised. */
  lemma GoogleJapaneseUntouched(text: string, config: CaptureConfig, languages: Languages)
    requires config.captureType == "google" && config.from == "Japanese"
    ensures FixImageText(text, config, languages) == text
  {
  }

  /** A Google capture keeps its back-quotes: the cleanup list is skipped. */
  lemma GoogleKeepsBackQuote(text: string, config: CaptureConfig, languages: Languages)
    requires config.captureType == "google" && '`' in text
    ensures '`' in FixImageText(text, config, languages)
  {
    if config.from != "Japanese" {
      var dots1 := ReplaceAll(text, "...", "…");
      var dots := ReplaceAll(dots1, "・・・", "…");
      ReplaceAllKeepsChar(text, "...", "…", '`');
      ReplaceAllKeepsChar(dots1, "・・・", "…", '`');
      ReplaceAllKeepsChar(dots, "=", "＝", '`');
    }
  }

  /**
    The lines of `translateImageText(text)`: every line in split mode;
    otherwise one line, with newlines dropped for Japanese and each turned
    into a space for other languages.
   */
  function MainPieces(text: string, split: bool, japanese: bool): (r: seq<string>)
    ensures |r| >= 1
    ensures split ==> Join(r, "\n") == text && forall k :: 0 <= k < |r| ==> '\n' !in r[k]
    ensures !split ==> |r| == 1 && '\n' !in r[0]
    ensures !split && !japanese ==> |r[0]| == |text|
    ensures !split && japanese ==> r == [Without(text, '\n')]
    ensures !split && !japanese ==> r == [Swapped(text, '\n', ' ')]
  {
    if split then
      JoinSplit(text, '\n');
      Split(text, '\n')
    else if japanese then
      ReplaceAllRemovesChar(text, '\n', "");
      ReplaceCharByNothing(text, '\n');
      [ReplaceAll(text, "\n", "")]
    else
      ReplaceAllRemovesChar(text, '\n', " ");
      ReplaceAllLength(text, "\n", " ");
      ReplaceCharByChar(text, '\n', ' ');
      [ReplaceAll(text, "\n", " ")]
  }

  /** The entries handed on for `lines`, in order. */
  function Dispatched(lines: seq<string>): (r: seq<Line>)
    ensures |r| == |lines|
    ensures forall k :: 0 <= k < |r| ==> r[k] == Line("003D", "", lines[k])
  {
    seq(|lines|, k requires 0 <= k < |lines| => Line("003D", "", lines[k]))
  }

  /**
    `translateImageText(text)`: the loop over the pieces that hands each
    non-empty one, in order, to the correction entry. The correction entry
    itself is not part of this model; the method returns what it receives.
   */
  method TranslateImageText(text: string, config: CaptureConfig, languages: Languages) returns (sent: seq<Line>)
    ensures sent == Dispatched(NonEmpty(MainPieces(text, config.split, config.from == languages.ja)))
  {
    var stringArray := MainPieces(text, config.split, config.from == languages.ja);
    sent := [];
    for index := 0 to |stringArray|
      invariant sent == Dispatched(NonEmpty(stringArray[..index]))
    {
      NonEmptyStep(stringArray, index);
      var element := stringArray[index];
      if element != "" {
        sent := sent + [Line("003D", "", element)];
      }
    }
    assert stringArray[..|stringArray|] == stringArray;
  }

  /** What a recognised text leads to: the capture editor, or the lines handed on. */
  datatype Outcome = OpenEditor(text: string) | Sent(lines: seq<Line>)

  /** `fixImageText(text)` followed by its hand-off: to the editor when `edit` is set, else to `translateImageText`. */
  method HandleImageText(text: string, config: CaptureConfig, languages: Languages) returns (outcome: Outcome)
    ensures config.edit ==> outcome == OpenEditor(FixImageText(text, config, languages))
    ensures !config.edit ==>
      outcome.Sent? && outcome.lines == Dispatched(NonEmpty(MainPieces(FixImageText(text, config, languages), config.split, config.from == languages.ja)))
  {
    var fixed := FixImageText(text, config, languages);
    if config.edit {
      return OpenEditor(fixed);
    }
    var sent := TranslateImageText(fixed, config, languages);
    return Sent(sent);
  }

  /**
    In split mode the texts handed on are the lines of the text with the
    empty ones dropped: each is a non-empty piece holding no newline, and
    every non-empty line is handed on.
   */
  lemma SplitLinesSent(text: string, languages: Languages, config: CaptureConfig)
    requires config.split
    ensures var lines := NonEmpty(MainPieces(text, true, config.from == languages.ja));
      && (forall k :: 0 <= k < |lines| ==> lines[k] != "" && '\n' !in lines[k])
      && (forall p :: p in Split(text, '\n') && p != "" ==> p in lines)
  {
    var pieces := MainPieces(text, true, config.from == languages.ja);
    var lines := NonEmpty(pieces);
    forall k | 0 <= k < |lines| ensures '\n' !in lines[k] {
      assert lines[k] in pieces;
    }
  }

  /** An empty recognised text hands nothing on. */
  lemma EmptyTextSendsNothing(config: CaptureConfig, languages: Languages)
    ensures NonEmpty(MainPieces("", config.split, config.from == languages.ja)) == []
  {
    assert MainPieces("", config.split, config.from == languages.ja) == [""];
  }
}
