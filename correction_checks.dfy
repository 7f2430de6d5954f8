/**
  The two post-translation helpers of module/correction-function-jp.js:
  `canSkipTranslation`, which tells whether a line holds any Japanese script
  at all, and `genderFix`, which neutralises female pronouns and titles that
  the translator introduced when the Japanese original gives no hint of a
  female subject.
 */
module CorrectionChecks {
  import opened JsString

  // ---------------------------------------------------------------------------
  // canSkipTranslation
  // ---------------------------------------------------------------------------

  /** The character class `[ァ-ヺぁ-ゖ一-鿿]`: katakana, hiragana and CJK ideographs. */
  predicate JapaneseScript(c: char)
  {
    ('ァ' <= c <= 'ヺ') || ('ぁ' <= c <= 'ゖ') || ('\U{4E00}' <= c <= '\U{9FFF}')
  }

  /**
    `text.replaceAll(/[^ァ-ヺぁ-ゖ一-鿿]/gi, '')`: every character
    outside the class is dropped, the others are kept in order.
   */
  function KeepJapaneseScript(text: string): (r: string)
    ensures |r| <= |text|
    ensures forall c :: c in r <==> c in text && JapaneseScript(c)
    decreases |text|
  {
    if text == [] then []
    else
      var rest := KeepJapaneseScript(text[1..]);
      assert forall c :: c in text <==> c == text[0] || c in text[1..];
      if JapaneseScript(text[0]) then [text[0]] + rest else rest
  }

  /** A line can skip translation exactly when none of its characters is Japanese script; the empty line can. */
  function CanSkipTranslation(text: string): (r: bool)
    ensures r <==> forall k :: 0 <= k < |text| ==> !JapaneseScript(text[k])
    ensures text == [] ==> r
  {
    var kept := KeepJapaneseScript(text);
    assert kept != [] ==> kept[0] in kept;
    assert forall k :: 0 <= k < |text| ==> text[k] in text;
    kept == ""
  }

  // ---------------------------------------------------------------------------
  // genderFix
  // ---------------------------------------------------------------------------

  /** `femaleWords`, in source order. */
  function FemaleWords(): seq<string>
  {
    ["女", "娘", "嬢", "母", "マザー", "ピクシー", "ティターニア"]
  }

  /** `new RegExp(femaleWords.join('|'), 'gi').test(original)`: none of the words has a case to ignore. */
  predicate MentionsFemale(original: string)
  {
    exists k :: 0 <= k < |FemaleWords()| && Includes(original, FemaleWords()[k])
  }

  /**
    `genderFix(originalText, translatedText)`: without a female word in the
    original, `她` becomes `他`, `小姐` is removed and `女王` becomes `王`;
    without `娘` in the original, `女兒` becomes `女孩`.
   */
  function GenderFix(original: string, translated: string): string
  {
    var neutral :=
      if MentionsFemale(original) then translated
      else ReplaceAll(ReplaceAll(ReplaceAll(translated, "她", "他"), "小姐", ""), "女王", "王");
    if Includes(original, "娘") then neutral else ReplaceAll(neutral, "女兒", "女孩")
  }

  /** Without a female word in the original, no `她` is left in the translation. */
  lemma GenderFixNoShe(original: string, translated: string)
    requires !MentionsFemale(original)
    ensures '她' !in GenderFix(original, translated)
  {
    var t1 := ReplaceAll(translated, "她", "他");
    var t2 := ReplaceAll(t1, "小姐", "");
    var t3 := ReplaceAll(t2, "女王", "王");
    ReplaceAllRemovesChar(translated, '她', "他");
    ReplaceAllChars(t1, "小姐", "");
    ReplaceAllChars(t2, "女王", "王");
    ReplaceAllChars(t3, "女兒", "女孩");
  }

  /** With a female word in the original, every `她` of the translation stays. */
  lemma GenderFixKeepsShe(original: string, translated: string)
    requires MentionsFemale(original) && '她' in translated
    ensures '她' in GenderFix(original, translated)
  {
    ReplaceAllKeepsChar(translated, "女兒", "女孩", '她');
  }

  /** `娘` is itself a female word, so an original holding it leaves the translation untouched. */
  lemma GenderFixDaughterWord(original: string, translated: string)
    requires Includes(original, "娘")
    ensures GenderFix(original, translated) == translated
  {
    assert FemaleWords()[1] == "娘";
  }

  /** A female original without `娘` only has `女兒` rewritten: a translation without it stays as it is. */
  lemma GenderFixFemaleOriginal(original: string, translated: string)
    requires MentionsFemale(original) && !Includes(translated, "女兒")
    ensures GenderFix(original, translated) == translated
  {
    ReplaceAllAbsent(translated, "女兒", "女孩");
  }

  /** A translation holding none of the four rewritten words is never changed. */
  lemma GenderFixNothingToFix(original: string, translated: string)
    requires !Includes(translated, "她") && !Includes(translated, "小姐")
    requires !Includes(translated, "女王") && !Includes(translated, "女兒")
    ensures GenderFix(original, translated) == translated
  {
    ReplaceAllAbsent(translated, "她", "他");
    ReplaceAllAbsent(translated, "小姐", "");
    ReplaceAllAbsent(translated, "女王", "王");
    ReplaceAllAbsent(translated, "女兒", "女孩");
  }
}
