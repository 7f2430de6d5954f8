# Tataru Assistant: text rewriting, name protection and the entry queue

This project is a Dafny model of the deterministic core of Tataru Assistant, a
translation helper for the game's chat and OCR captures. Verified lemmas
state what each part promises.

- **Name-protecting codec** (`Correction`, `CodecExamples`). Before machine
  translation, `replaceTextByCode` hides every catalog name behind a
  one-letter placeholder. A name counts with or without one of twenty
  honorific suffixes.
  - The placeholders are drawn from `BCDFGHJKLMNPQRSTVWXYZ` minus every letter
    an input character upper-cases to.
  - Each substitution records a `[placeholder, rendering]` row. `replaceText`
    later applies that table row by row, which restores the names.
  - `Correction` is the loop-for-loop model, proved against specification
    functions. `CodecExamples` works through concrete cases: the catalog
    example, and the overflow described under Findings.
- **Post-translation helpers** (`CorrectionChecks`): `canSkipTranslation` and
  `genderFix`.
- **OCR clean-up and line splitting.** These come in two variants:
  - the renderer's `fixText` / `translateImageText`, which enqueue lines into
    the entry queue (`TextDetect`);
  - the main process's `fixImageText` / `translateImageText`, which hand lines
    to the correction entry (`MainTextDetect`).

  Both share the context-sensitive word fixes in `OcrRules`.
- **Entry queue** (`FixEntry`). A class holding the array queue:
  - `addTask` appends;
  - a tick takes the head, stamps a missing id or timestamp, and picks the
    language field by channel;
  - `restart` empties the queue.
- **Chinese conversion** (`ZhConvert`): table-driven `replaceText` and `exec`.
- **Request helpers** (`Request`):
  - header sanitising, in place on a `Headers` object;
  - query-string building;
  - the expiry time;
  - configuration fallbacks.
- **Dialog helpers** (`Dialog`):
  - colour lookup and the colour choice of `getStyle`;
  - the notification delay;
  - log-file naming, over a proleptic Gregorian calendar;
  - the log upsert and the audio rule of `saveLog`;
  - the markup of `updateDialog`.
- **Prompt templates** (`AiFunction`).

`JsString` gives the JavaScript string operations the code relies on:
- `includes`, `startsWith`;
- `replaceAll` with a literal pattern, which is leftmost and non-overlapping,
  and with an empty pattern inserts at every boundary;
- `split`, `join`;
- number-to-string conversion;
- ASCII `toUpperCase`.

`Rewrite` gives ordered replacement tables. Strings are Dafny strings, one
`char` per code point. Every literal the core uses lies in the Basic
Multilingual Plane, so there a `char` is one UTF-16 code unit.

The clock, the configuration, the chat-code table, the catalogs and the
conversion tables are parameters. The language enumeration (`languageEnum`)
is a parameter `Languages`. The engine module that defines it is not part of
this model.

Where the documentation of the system and its code disagree, the model
follows the code:
- Newline collapsing is one `replaceAll` pass, so it is not idempotent:
  `"\n\n\n"` becomes `"\n\n"` (`TextDetect.NewlinePassOnce`).
- `replaceTextByCode` tries every suffix of a name, one after another, and
  then the bare name. It does not stop at the first suffix that matches.
- OCR entries enqueued by the renderer's `translateImageText` carry no
  `translation` object. A tick on one removes it and stamps it, then fails
  when it reads `translation.from`. `FixEntry.EntryQueue.Tick` reports this
  as the outcome `MissingTranslation`.
- In the main process's `fixImageText`, the first gate compares the source
  language with the literal `'Japanese'`. The later gates compare it with
  `languageEnum.ja`.

## Model

| member | source | states |
|---|---|---|
| Correction.ReplaceText | module/correction-function-jp.js:15-26 | a table that is not an array leaves the text unchanged; otherwise each row, in order, replaces every occurrence of its search string (the loop is proved against `ApplyRows`) |
| Correction.CodeString | module/correction-function-jp.js:37-43 | the first loop leaves exactly the alphabet minus every upper-cased character of the text |
| Correction.AlphabetMembers | module/correction-function-jp.js:37-43 | a letter is in the filtered alphabet iff it is a placeholder letter that no input character upper-cases to, and no letter occurs twice |
| Correction.FreshNotInText | module/correction-function-jp.js:37-43 | a fresh placeholder letter does not occur in the input text |
| Correction.ReplaceTextByCode | module/correction-function-jp.js:28-186 | a catalog that is not an array gives the text back with an empty table; otherwise the two nested loops compute the specification `Encode` |
| Correction.Encode | module/correction-function-jp.js:28-186 | the specification of `replaceTextByCode` as written; what it computes is stated by `ReplaceTextByCode`, `EncodeTokens`, `EncodeAbsent` and `OneNameRoundTrip` |
| Correction.ProtectElement | module/correction-function-jp.js:48-175 | one iteration over a catalog row (all twenty suffixes, then the bare name) advances the specification by exactly that row |
| Correction.ProtectNameInvariant | module/correction-function-jp.js:50-175 | the suffix checks of one name keep row `i` of the table carrying the `i`-th placeholder, and in the bounded encoder keep the table within the alphabet |
| Correction.ProtectCatalogInvariant | module/correction-function-jp.js:46-176 | the loop over the catalog keeps the same invariant |
| Correction.EncodeTokens | module/correction-function-jp.js:37-175 | every row within the alphabet carries a single fresh letter absent from the input, and rows carry pairwise distinct letters; rows past the alphabet carry "undefined" |
| Correction.EncodeBoundedTokens | module/correction-function-jp.js:47-175 | the corrected encoder never pushes more rows than there are letters, and all its placeholders are fresh, absent from the input and pairwise distinct |
| Correction.ProtectNameAbsent | module/correction-function-jp.js:50-175 | nothing is replaced or pushed for a name that is not in the text, whatever its suffix |
| Correction.EncodeAbsent | module/correction-function-jp.js:46-176 | a text containing no catalog name comes back unchanged with an empty table |
| CodecExamples.HonorificName | module/correction-function-jp.js:50-53 | any non-empty name none of whose characters upper-cases to a placeholder letter, followed by さん, becomes `B` with the one row `[B, rendering]`, and decoding restores the rendering |
| CodecExamples.OneNameRoundTrip | module/correction-function-jp.js:46-175 | for a one-name catalog in any text: when suffix `k` is the first of the twenty that follows the name somewhere, and hiding it behind the first free letter leaves no other occurrence of the name, the table is that one letter with the form-`k` rendering, and `replaceText` on the result equals replacing every name+suffix by that rendering |
| CodecExamples.ElliottExample | module/correction-function-jp.js:50-53 | `エリオットさん` with catalog `[エリオット, 艾利歐特]` encodes to `B` with table `[[B, 艾利歐特]]`, and `replaceText` turns it into `艾利歐特` |
| CodecExamples.OverflowRoundTrip | module/correction-function-jp.js:47-175 | for every prefix `x` that holds no `A`, no `Z` and no `u`, and whose letters use up all placeholders but `Z`, and every rendering `r` without `u`, the encoder as written turns `AさんAくんAちゃん` with catalog `[A, r]` into `Z`, `undefined`, `undefined` with rows `[Z, r]`, `[undefined, r]`, `[undefined, 小r]`, and decoding yields `x` + `rrr` rather than `x` + `rr小r` |
| CodecExamples.BoundedRoundTrip | module/correction-function-jp.js:47-175 | for every prefix `x` that holds no `A` and no `Z` and whose letters use up all placeholders but `Z`, and any rendering `r`, the corrected encoder hides only the first hit behind `Z`, and decoding restores it and leaves the rest as it was |
| CodecExamples.CrowdOverflows | module/correction-function-jp.js:47-175 | for the twenty letters `B`..`Y` followed by `AさんAくんAちゃん` and catalog `[A, 甲]`, the as-written table is `[[Z, 甲], [undefined, 甲], [undefined, 小甲]]`, three rows for one letter, while the corrected encoder pushes only `[Z, 甲]` |
| CorrectionChecks.KeepJapaneseScript | module/correction-function-jp.js:190 | the removal keeps exactly the hiragana, katakana and CJK characters of the text |
| CorrectionChecks.CanSkipTranslation | module/correction-function-jp.js:188-193 | true iff no character is hiragana (ぁ-ゖ), katakana (ァ-ヺ) or CJK (U+4E00-U+9FFF); true for the empty text |
| CorrectionChecks.GenderFix | module/correction-function-jp.js:195-213 | `genderFix`: neutralises `她`, `小姐`, `女王` unless the original names a woman, and `女兒` unless the original holds `娘`; its properties are stated by the `GenderFix*` lemmas |
| CorrectionChecks.GenderFixNoShe | module/correction-function-jp.js:195-206 | when the original holds none of the seven female words, the output holds no `她` |
| CorrectionChecks.GenderFixKeepsShe | module/correction-function-jp.js:195-206 | when the original holds a female word, a `她` in the translation survives |
| CorrectionChecks.GenderFixDaughterWord | module/correction-function-jp.js:201-213 | when the original holds `娘`, the translation is returned unchanged |
| CorrectionChecks.GenderFixFemaleOriginal | module/correction-function-jp.js:195-213 | a female original and a translation without `女兒` give the translation back unchanged |
| CorrectionChecks.GenderFixNothingToFix | module/correction-function-jp.js:195-213 | a translation holding none of `她`, `小姐`, `女王`, `女兒` is returned unchanged |
| FixEntry.PlayerChannelsDistinct | src/module/fix/fix-entry.js:68-113 | the player-channel list holds 24 pairwise distinct codes |
| FixEntry.SystemCodesNotPlayer | src/module/fix/fix-entry.js:63-65 | the OCR code `003D` and the default code `0039` are not player channels |
| FixEntry.DetectedLanguage | src/module/fix/fix-entry.js:58-60 | `fromPlayer` exactly for a player channel, `from` otherwise |
| FixEntry.NewFrom | src/module/fix/fix-entry.js:46-53 | the `from` field after the language check; stated by `NewFromValues` and `NonPlayerKeepsFrom` |
| FixEntry.NewFromValues | src/module/fix/fix-entry.js:46-53 | the new `from` is the old one or the detected language, and it changes only to `ja` or `en` |
| FixEntry.NonPlayerKeepsFrom | src/module/fix/fix-entry.js:46-53 | for a non-player channel the language update is a no-op |
| FixEntry.Stamp | src/module/fix/fix-entry.js:39-43 | a present id and timestamp are kept; otherwise both become `now` and `'id' + now`, so neither is missing afterwards |
| FixEntry.StampStable | src/module/fix/fix-entry.js:39-43 | stamping an entry that was already stamped changes nothing |
| FixEntry.EntryQueue.constructor | src/module/fix/fix-entry.js:12 | the queue starts empty |
| FixEntry.EntryQueue.AddTask | src/module/fix/fix-entry.js:16-18 | the item is appended at the tail and the rest of the queue is unchanged |
| FixEntry.EntryQueue.Restart | src/module/fix/fix-entry.js:21-25 | the queue is empty afterwards |
| FixEntry.EntryQueue.Tick | src/module/fix/fix-entry.js:35-55 | an empty queue is left alone; otherwise exactly the head is removed, its id and timestamp become `Stamp` of the old ones, and `translation.from` becomes the language picked by channel when that is `ja` or `en`; an entry without a translation ends the tick with `MissingTranslation` after the shift and stamp |
| OcrRules.IsolatedDots | src/module/system/text-detect-module.js:161 | only `・` changes, into `、`; no `・` that is left has no katakana or `ー` on both sides |
| OcrRules.DarkFix | src/module/system/text-detect-module.js:164 | a character becomes `闇` exactly where `間の` precedes 使徒, 戦士, 巫女 or 世界; all others are kept |
| OcrRules.DarkFixComplete | src/module/system/text-detect-module.js:164 | no such `間の` is left afterwards |
| OcrRules.SoldierFix | src/module/system/text-detect-module.js:165 | only a `填` or `土` after one of the seven prefixes changes, into `士` |
| OcrRules.SoldierFixComplete | src/module/system/text-detect-module.js:165 | no such `填` or `土` is left afterwards |
| OcrRules.ContextFixChars | src/module/system/text-detect-module.js:164-165 | the two context rules write no character other than `闇` and `士` |
| OcrRules.WordFixChars | src/module/system/text-detect-module.js:162-165 | the word fixes write only characters of ガンブレイカー, `闇` and `士` |
| OcrRules.WordFix | src/module/system/text-detect-module.js:162-165 | the four word fixes shared by both OCR chains, in source order; stated by `WordFixChars`, `WordFixGunbreaker` and `WordFixNoNew` |
| OcrRules.WordFixGunbreaker | src/module/system/text-detect-module.js:162-163 | neither `ガンプレイカー` nor `ガンプブレイカー` is left after the word fixes, including one the later context rules could form |
| OcrRules.WordFixNoNew | src/module/system/text-detect-module.js:162-165 | the word fixes create no occurrence of a string none of whose characters they write |
| OcrRules.NonEmpty | src/module/system/text-detect-module.js:194-205 | the kept pieces are exactly the non-empty ones |
| TextDetect.NewlinePassOnce | src/module/system/text-detect-module.js:134 | three newlines become two, and a second pass changes two into one |
| TextDetect.TesseractFixChars | src/module/system/text-detect-module.js:158-167 | the tesseract chain writes only `「`, `、`, `賛`, `成` and the word-fix characters |
| TextDetect.FixText | src/module/system/text-detect-module.js:127-172 | `fixText`: the newline pass, the Japanese chain for a Japanese source, the tesseract chain unless `google-vision`; stated by the `TextDetect` lemmas below |
| TextDetect.TesseractFix | src/module/system/text-detect-module.js:158-167 | the tesseract chain in source order; stated by `TesseractFixChars`, `TesseractNoNew` and `TesseractWordsFixed` |
| TextDetect.TesseractNoNew | src/module/system/text-detect-module.js:158-167 | the tesseract chain creates no occurrence of a string none of whose characters it writes |
| TextDetect.TesseractWordsFixed | src/module/system/text-detect-module.js:158-167 | with any backend but `google-vision`, no `ガンプレイカー`, `ガンプブレイカー` or `倫成` is left, for every source language |
| TextDetect.JapaneseDotRuns | src/module/system/text-detect-module.js:137-167 | for a Japanese source no `..` and no `・・` is left, on any backend |
| TextDetect.JapaneseMarksGone | src/module/system/text-detect-module.js:137-167 | for Japanese, no space, `?`, `!`, `~`, `:`, `=`, `『` or `』` survives, on any backend |
| TextDetect.HalfWidthDotsGone | src/module/system/text-detect-module.js:140-146 | for Japanese, no half-width `･` survives |
| TextDetect.GoogleSkipsTesseract | src/module/system/text-detect-module.js:158 | with `google-vision`, a non-Japanese text only has its newlines collapsed, so a back-quote or `・` survives |
| TextDetect.TesseractQuotesGone | src/module/system/text-detect-module.js:158-160 | with any other backend, no back-quote survives |
| TextDetect.Pieces | src/module/system/text-detect-module.js:180-188 | in split mode the pieces joined with `\n` give the text back; otherwise there is one piece with no newline: the text without its newlines for `ja`, and for other languages the text with each newline turned into a space, after one pass of `'  '` → `' '` |
| TextDetect.CaptureData.constructor | src/module/system/text-detect-module.js:29 | a capture starts with empty text and the given settings |
| TextDetect.TranslateImageText | src/module/system/text-detect-module.js:176-207 | the queue is extended, in order, by one `{003D, '', line}` entry per non-empty piece, and nothing before it changes |
| TextDetect.EnqueueLine | src/module/system/text-detect-module.js:196-205 | one new `{003D, '', text}` entry is appended behind the entries already queued, which stay as they were |
| TextDetect.StartRecognizing | src/module/system/text-detect-module.js:28-55 | the capture's text becomes the normalised OCR text; lines are queued only when the text is non-empty and the editor is off |
| MainTextDetect.NoEqualsUnlessJapanese | src/main_modules/system/text-detect-module.js:105-107 | unless the source is the literal `'Japanese'`, no `=` survives |
| MainTextDetect.NoSpacesForJapanese | src/main_modules/system/text-detect-module.js:109-112 | a non-Google capture from `ja` has no ASCII space left |
| MainTextDetect.NoBackQuoteUnlessGoogle | src/main_modules/system/text-detect-module.js:109-121 | a non-Google capture has no back-quote left |
| MainTextDetect.GoogleJapaneseUntouched | src/main_modules/system/text-detect-module.js:105-109 | a Google capture from `'Japanese'` is returned unchanged |
| MainTextDetect.GoogleKeepsBackQuote | src/main_modules/system/text-detect-module.js:109 | with a Google capture a back-quote survives |
| MainTextDetect.FixImageText | src/main_modules/system/text-detect-module.js:100-122 | `fixImageText` up to its hand-off: the marks unless the source is `'Japanese'`, then for a non-Google capture the spaces (for `ja`), the newline pass, the back-quote and the word fixes; stated by the `MainTextDetect` lemmas |
| MainTextDetect.NoGunbreakerMisreadings | src/main_modules/system/text-detect-module.js:110-122 | for a non-Google capture neither `ガンプレイカー` nor `ガンプブレイカー` is left |
| MainTextDetect.MainPieces | src/main_modules/system/text-detect-module.js:142-150 | split mode gives the lines between newlines, joining back to the text; otherwise one piece without newlines: the text without its newlines for `ja`, and for other languages the text with each newline turned into a space, position by position |
| MainTextDetect.Dispatched | src/main_modules/system/text-detect-module.js:158-165 | one `{003D, '', line}` per line, in order |
| MainTextDetect.TranslateImageText | src/main_modules/system/text-detect-module.js:137-169 | the loop hands on exactly the non-empty pieces, in order, with code `003D` |
| MainTextDetect.HandleImageText | src/main_modules/system/text-detect-module.js:100-134 | with the editor on, the fixed text goes to the editor; otherwise its lines are sent |
| MainTextDetect.SplitLinesSent | src/main_modules/system/text-detect-module.js:142-143 | in split mode the lines sent are the non-empty lines of the text, none holding a newline |
| MainTextDetect.EmptyTextSendsNothing | src/main_modules/system/text-detect-module.js:141-168 | an empty text sends no line in any mode |
| ZhConvert.ReplaceText | src/main_modules/translator/zh-convert.js:12-18 | rows are applied in table order as global literal replacements; a missing or empty table returns the text |
| ZhConvert.EffectiveOption | src/main_modules/translator/zh-convert.js:7 | a missing option defaults to text `''` and table `zh2Hant` |
| ZhConvert.TableKey | src/main_modules/translator/zh-convert.js:8 | a missing table name is looked up as the key `"undefined"` |
| ZhConvert.LookUp | src/main_modules/translator/zh-convert.js:8 | a table is found exactly when its key is present |
| ZhConvert.Exec | src/main_modules/translator/zh-convert.js:7-9 | `exec` converts the option's text with the named table, and returns the text unchanged when the name is missing from the tables |
| ZhConvert.IdentityRows | src/main_modules/translator/zh-convert.js:12-18 | rows that map a string to itself leave every text unchanged |
| Request.Names | src/module/system/request-module.js:74 | the header names in property order |
| Request.Get | src/module/system/request-module.js:83 | absent exactly when no property has the name; present values belong to a property with that name |
| Request.Omit | src/module/system/request-module.js:79 | no property left has an omitted name |
| Request.OmitMembers | src/module/system/request-module.js:79 | a property survives iff it was present and its name is not omitted |
| Request.Headers.constructor | src/module/system/request-module.js:73 | the object holds the given properties |
| Request.Headers.Delete | src/module/system/request-module.js:79 | `delete headers[name]` removes that key and keeps every other property in order |
| Request.DeleteListed | src/module/system/request-module.js:74-81 | the loop over the header names deletes exactly the restricted keys |
| Request.ClearHeaders | src/module/system/request-module.js:73-88 | the same object is returned, its properties cleared as `Cleared` says |
| Request.Cleared | src/module/system/request-module.js:73-88 | the headers `clearHeaders` leaves; stated by the `Cleared*` lemmas |
| Request.ClearedRemovesRestricted | src/module/system/request-module.js:11-20 | none of the eight restricted names survives (exact, case-sensitive match) |
| Request.ClearedConnection | src/module/system/request-module.js:83-85 | `Connection` is removed iff its value is exactly `upgrade`, and kept otherwise |
| Request.ClearedKeepsOthers | src/module/system/request-module.js:73-88 | every other key keeps its value |
| Request.ClearedIdempotent | src/module/system/request-module.js:73-88 | clearing twice equals clearing once |
| Request.Pairs | src/module/system/request-module.js:111-115 | one `name=value` per property, in order, without encoding |
| Request.ToParameters | src/module/system/request-module.js:108-118 | the pairs joined by `&`; the result is empty iff there are no properties |
| Request.ParametersSplit | src/module/system/request-module.js:108-118 | when no name or value holds `&`, splitting the query string on `&` gives back the pairs |
| Request.ExpiryDate | src/module/system/request-module.js:91-93 | the expiry lies exactly 21600000 ms (six hours) after now |
| Request.ConfiguredOr | src/module/system/request-module.js:96-105 | a configured non-empty value is used, the default otherwise |
| Request.GetSCU | src/module/system/request-module.js:96-99 | the configured `scu` when truthy, the default configuration's otherwise |
| Request.GetUserAgent | src/module/system/request-module.js:102-105 | the configured `userAgent` when truthy, the default configuration's otherwise |
| Dialog.ColorOf | src/module/system/dialog-module.js:117-131 | the colour of the first entry with the code; `#FFFFFF` when none has it |
| Dialog.GetColor | src/module/system/dialog-module.js:117-131 | the loop with its early break computes `ColorOf` |
| Dialog.StyleColor | src/module/system/dialog-module.js:104-108 | the configured channel colour when present and non-empty, `getColor` otherwise; the code defaults to `0039` |
| Dialog.NotificationDelay | src/module/system/dialog-module.js:83-85 | the delay lies in [5000, 10000] and reaches 10000 exactly from 250 characters on |
| Dialog.NotificationDelayMonotone | src/module/system/dialog-module.js:83-85 | a longer text never gets a shorter delay |
| Dialog.Weekday | src/module/system/dialog-module.js:182 | `getDay()` as a function of the date, a value in 0..6 |
| Dialog.KnownWeekdays | src/module/system/dialog-module.js:182 | 1970-01-01 is a Thursday (4) and 2024-01-01 a Monday (1) |
| Dialog.WeekdayNextDay | src/module/system/dialog-module.js:182 | the next day of the same month has the next weekday |
| Dialog.WeekdayNextMonth | src/module/system/dialog-module.js:182 | the first of a month follows the last day of the previous month |
| Dialog.WeekdayNextYear | src/module/system/dialog-module.js:182 | the first of January follows the previous 31 December |
| Dialog.DateTailFields | src/module/system/dialog-module.js:182 | the `-MM-DD.json` tail has 11 characters with the two-digit month and day fields in place |
| Dialog.LogName | src/module/system/dialog-module.js:180-183 | `createLogName` as written: year, two-digit month, two-digit `getDay()`; stated by `LogNameRepeatsWeekly` and `LogNameCollision` |
| Dialog.Field2Injective | src/module/system/dialog-module.js:182 | two-digit zero-padding of numbers below 100 is injective |
| Dialog.LogNameRepeatsWeekly | src/module/system/dialog-module.js:180-183 | as written, a date and the date seven days later in the same month get the same log file name |
| Dialog.LogNameCollision | src/module/system/dialog-module.js:180-183 | 2024-01-01 and 2024-01-08 share the name as written; the corrected names differ |
| Dialog.DailyLogNameDistinct | src/module/system/dialog-module.js:180-183 | corrected names of different valid dates differ |
| Dialog.DailyLogNameInjective | src/module/system/dialog-module.js:180-183 | the corrected name determines the date |
| Dialog.ReadLog | src/module/system/dialog-module.js:152-160 | a stored object is used as it is; a missing, falsy or array log becomes `{}` |
| Dialog.ItemOf | src/module/system/dialog-module.js:135-147 | the saved item carries the id, the displayed name and text as `translated_name` and `translated_text`, and the code, name, text and timestamp of the dialog data |
| Dialog.SaveLog | src/module/system/dialog-module.js:134-177 | the log afterwards holds under `id` the item built from `id`, the displayed name and text and the dialog data, and keeps every other key; audio plays iff the id is new, the code is `003D`, `0044` or `2AB9`, the audio text is not empty and auto-play is on |
| Dialog.SecondSaveSilent | src/module/system/dialog-module.js:163-169 | saving the same id again, with any name, text and dialog data, never plays audio |
| Dialog.SaveLogIdempotent | src/module/system/dialog-module.js:135-169 | saving the same id, name, text and dialog data twice leaves the log as saving it once |
| Dialog.SeparatorIffName | src/module/system/dialog-module.js:52 | `：<br />` appears in the markup iff the name is non-empty (for texts without `：`) |
| Dialog.InnerHtml | src/module/system/dialog-module.js:52 | the markup of `updateDialog`; stated by `SeparatorIffName` and `UpdateDialog` |
| Dialog.UpdateDialog | src/module/system/dialog-module.js:42-64 | the markup is set from the name and text, and the log is saved iff dialog data is given; the saved log then holds under `id` the displayed name and text with the data's code and timestamp |
| AiFunction.OrDefault | src/module/translator/ai-function.js:3 | a missing argument takes the default value |
| AiFunction.CreateSystemContent | src/module/translator/ai-function.js:3-5 | the fixed template with the source at two places and the target at one; the languages default to Japanese and Chinese |
| AiFunction.SystemContentInjective | src/module/translator/ai-function.js:3-5 | the system content determines source and target of equal source length |
| AiFunction.CreatePrompt | src/module/translator/ai-function.js:7-11 | "Translate the following text from " + source + " to " + target + " and do not include any explanation in response." |
| AiFunction.PromptInjective | src/module/translator/ai-function.js:7-11 | the prompt determines source and target of equal source length |
| AiFunction.DefaultLanguages | src/module/translator/ai-function.js:3-11 | calling without languages equals calling with Japanese and Chinese |
| AiFunction.CreateImagePrompt | src/module/translator/ai-function.js:13-15 | the same constant prompt on every call |

## Left out

- OCR backends: tesseract workers and Google Vision. They are foreign async calls, and the OCR text is a parameter.
- Network calls: `get`, `post` and `getCookie`. `getCookie` also uses the regex engine.
- File system: `deleteImages` and reading or writing the log file. The stored log is a parameter, and the result is the new log.
- Windows, IPC, notifications, text-to-speech URLs and dialog timers. They are UI sinks.
- `setInterval`, `setTimeout` and `sleep`. A tick is an explicit method call and the current time is a parameter.
- Concurrency between ticks, in-flight translations and `restart`.
- The correction entry reached from the main process. It is not part of this model, so `MainTextDetect.TranslateImageText` returns the lines it would receive.
- Strings as UTF-16 code units. The model uses one `char` per code point. Every literal in the core is a single code unit, but `text.length` counts astral characters twice and lone surrogates cannot be represented. `NotificationDelay` therefore takes the length as a parameter.
- `toUpperCase` beyond ASCII (for example `ſ` becomes `S`). Upper-casing is modelled for ASCII only.
- `$` patterns in replacement strings, and regular expressions in general. Only the specific context rules are written out by hand.
- `replaceText`'s `search` and `replacement` column arguments. The model uses their defaults, 0 and 1.
- CodecExamples.OneNameRoundTrip: the decoding round trip of `replaceTextByCode` is proved only for a catalog of one name, and only when the first suffix that matches hides every occurrence of the name. With several rows or several matching suffixes it is not proved. It does not hold in general, because a rendering can contain a later row's placeholder. The overflow examples are proved separately.
- Date from milliseconds and time zones. Year, month and day are parameters. Dates are proleptic Gregorian.
- `toLocaleString`, and a timestamp that is not an integer falling back to the current time.
- A missing id and timestamp are represented by `""` and `0`. Both are falsy in the source, as `undefined` is.
- Values that are not strings in headers, query parameters and log entries. Falsy values stored under a log id are treated like absent ones.
- The `zhConvert` call inside `updateDialog`. It is a call into another module, so name and text are taken after conversion.
- Inherited prototype keys (such as `constructor`) in the conversion-table object.
- TextDetect.TesseractQuotesGone: states only that no back-quote survives. The guarantee that no isolated `・` survives is proved for `OcrRules.IsolatedDots` alone, not carried through the word fixes after it.
- TextDetect.TranslateImageText: does not state that the queued entries are new objects, distinct from every entry already in the queue; each step (`TextDetect.EnqueueLine`) states it for the entry it adds.
- CorrectionChecks.GenderFixNoShe: states only that no `她` survives. It does not state that `小姐` and `女王` are rewritten.

## Findings

| source | as written | input that shows it | evidently intended | confidence | as-written member | corrected member |
|---|---|---|---|---|---|---|
| module/correction-function-jp.js:47-175 | the alphabet bound is checked only before each catalog row, so several suffix hits of one name push `codeIndex` past the alphabet; `codeString[codeIndex]` is then the value `undefined`: `replaceAll` coerces it to the string "undefined" in the text, and the table holds the value, which `replaceText` coerces to the same string when it decodes, so the model writes the string in both places | text `BCDFGHJKLMNPQRSTVWXYAさんAくんAちゃん`, catalog `[[A, 甲]]`: table `[[Z, 甲], [undefined, 甲], [undefined, 小甲]]`, and decoding gives the prefix + `甲甲甲` instead of `甲甲小甲` | stop substituting once the placeholders run out | high; not executed | CodecExamples.CrowdOverflows | Correction.EncodeBoundedTokens |
| src/module/system/dialog-module.js:180-183 | the day field of the log file name is `getDay()`, the weekday 0-6 | 2024-01-01 and 2024-01-08 are both named `2024-01-01.json` | `getDate()`, the day of the month, one file per day | high; not executed | Dialog.LogNameCollision | Dialog.DailyLogNameInjective |
