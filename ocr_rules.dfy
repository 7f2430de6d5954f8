/**
  The context-sensitive OCR clean-up rules shared by
  src/module/system/text-detect-module.js and
  src/main_modules/system/text-detect-module.js. Each is a `replaceAll` with a
  regular expression whose look-behind or look-ahead reads the text as it
  was before the call; here each is a hand-written string function, with
  the guarantee that no occurrence it targets is left behind.
 */
module OcrRules {
  import opened JsString

  /** `s` ends with `p`. */
  predicate EndsWith(s: string, p: string)
  {
    |p| <= |s| && s[|s| - |p|..] == p
  }

  /** The character class `[ァ-ヺー]`: a katakana letter or the long-vowel mark. */
  predicate KatakanaOrLong(c: char)
  {
    ('ァ' <= c <= 'ヺ') || c == 'ー'
  }

  /** `・` at `i` with no katakana or `ー` just before it and none just after it. */
  predicate IsolatedDot(s: string, i: nat)
    requires i < |s|
  {
    s[i] == '・' && (i == 0 || !KatakanaOrLong(s[i - 1])) && (i + 1 == |s| || !KatakanaOrLong(s[i + 1]))
  }

  /**
    `replaceAll(/(?<![ァ-ヺー])・(?![ァ-ヺー])/gi, '、')`: an isolated middle dot
    is an OCR misreading of the ideographic comma. Every `・` still there
    afterwards stands next to katakana, as in `ガン・ブレイカー`.
   */
  function IsolatedDots(s: string): (r: string)
    ensures |r| == |s|
    ensures forall i :: 0 <= i < |s| ==> r[i] == s[i] || (s[i] == '・' && r[i] == '、')
    ensures forall c :: c in r ==> c in s || c == '、'
    ensures forall i :: 0 <= i < |r| && r[i] == '・' ==> !IsolatedDot(r, i)
  {
    var r := seq(|s|, i requires 0 <= i < |s| => if IsolatedDot(s, i) then '、' else s[i]);
    assert forall i :: 0 <= i < |s| && r[i] == '・' ==> s[i] == '・' && !IsolatedDot(s, i);
    assert forall i :: 0 <= i < |s| && !KatakanaOrLong(s[i]) ==> !KatakanaOrLong(r[i]);
    r
  }

  // ---------------------------------------------------------------------------
  // 間の → 闇の before a title
  // ---------------------------------------------------------------------------

  /** The alternatives of the look-ahead `(?=使徒|戦士|巫女|世界)`. */
  function DarkTitles(): seq<string>
  {
    ["使徒", "戦士", "巫女", "世界"]
  }

  predicate StartsWithTitle(s: string)
  {
    exists k :: 0 <= k < |DarkTitles()| && StartsWith(s, DarkTitles()[k])
  }

  /** A match of `/間の(?=使徒|戦士|巫女|世界)/` starts at `i`. */
  predicate DarkAt(s: string, i: nat)
  {
    i + 2 <= |s| && s[i..i + 2] == "間の" && StartsWithTitle(s[i + 2..])
  }

  /**
    `replaceAll(/間の(?=使徒|戦士|巫女|世界)/gi, '闇の')`, scanning left to right
    and resuming after each match. Only the first character of a match changes,
    so the result is the text with `間` turned into `闇` at every match.
   */
  function DarkFix(s: string): (r: string)
    ensures |r| == |s|
    ensures forall i :: 0 <= i < |s| ==> r[i] == (if DarkAt(s, i) then '闇' else s[i])
    decreases |s|
  {
    if |s| < 2 then s
    else if s[..2] == "間の" && StartsWithTitle(s[2..]) then
      var rest := DarkFix(s[2..]);
      DarkHit(s, rest);
      "闇の" + rest
    else
      var rest := DarkFix(s[1..]);
      DarkMiss(s, rest);
      [s[0]] + rest
  }

  /** A match at the start: `間の` becomes `闇の` and the rest is fixed on its own. */
  lemma DarkHit(s: string, rest: string)
    requires |s| >= 2 && s[..2] == "間の" && StartsWithTitle(s[2..])
    requires |rest| == |s| - 2
    requires forall j :: 0 <= j < |rest| ==> rest[j] == (if DarkAt(s[2..], j) then '闇' else s[2..][j])
    ensures |"闇の" + rest| == |s|
    ensures forall i :: 0 <= i < |s| ==> ("闇の" + rest)[i] == (if DarkAt(s, i) then '闇' else s[i])
  {
    assert DarkAt(s, 0);
    assert !DarkAt(s, 1) by { assert s[1] == 'の'; }
    DarkJoin(s, 2, "闇の", rest);
  }

  /** No match at the start: the first character stays and the rest is fixed on its own. */
  lemma DarkMiss(s: string, rest: string)
    requires |s| >= 2 && !(s[..2] == "間の" && StartsWithTitle(s[2..]))
    requires |rest| == |s| - 1
    requires forall j :: 0 <= j < |rest| ==> rest[j] == (if DarkAt(s[1..], j) then '闇' else s[1..][j])
    ensures |[s[0]] + rest| == |s|
    ensures forall i :: 0 <= i < |s| ==> ([s[0]] + rest)[i] == (if DarkAt(s, i) then '闇' else s[i])
  {
    assert !DarkAt(s, 0);
    DarkJoin(s, 1, [s[0]], rest);
  }

  /** A fixed head of `n` characters followed by the fixed rest of the text is the fixed text. */
  lemma DarkJoin(s: string, n: nat, head: string, rest: string)
    requires n <= |s| && |head| == n && |rest| == |s| - n
    requires forall i :: 0 <= i < n ==> head[i] == (if DarkAt(s, i) then '闇' else s[i])
    requires forall j :: 0 <= j < |rest| ==> rest[j] == (if DarkAt(s[n..], j) then '闇' else s[n..][j])
    ensures forall i :: 0 <= i < |s| ==> (head + rest)[i] == (if DarkAt(s, i) then '闇' else s[i])
  {
    DarkShift(s, n);
    forall i | n <= i < |s| ensures (head + rest)[i] == (if DarkAt(s, i) then '闇' else s[i]) {
      assert (head + rest)[i] == rest[i - n];
      assert s[n..][i - n] == s[i];
    }
  }

  /** Matches of the pattern past the first `n` characters are the matches in the rest of the text. */
  lemma DarkShift(s: string, n: nat)
    requires n <= |s|
    ensures forall i :: n <= i < |s| ==> DarkAt(s, i) == DarkAt(s[n..], i - n)
  {
    forall i | n <= i < |s| ensures DarkAt(s, i) == DarkAt(s[n..], i - n) {
      if i + 2 <= |s| {
        assert s[i..i + 2] == s[n..][i - n..i - n + 2];
        assert s[i + 2..] == s[n..][i - n + 2..];
      }
    }
  }

  /** A title read in a text whose characters are the originals or `闇` was there in the original. */
  lemma TitleBack(r: string, s: string)
    requires |r| == |s| && forall i :: 0 <= i < |s| ==> r[i] == s[i] || r[i] == '闇'
    ensures StartsWithTitle(r) ==> StartsWithTitle(s)
  {
    if StartsWithTitle(r) {
      var k :| 0 <= k < |DarkTitles()| && StartsWith(r, DarkTitles()[k]);
      var t := DarkTitles()[k];
      assert '闇' !in t;
      forall j | 0 <= j < |t| ensures s[j] == t[j] {
        assert r[j] == t[j];
      }
      assert StartsWith(s, t);
    }
  }

  /** After the fix no `間の` before a title is left: every match of the pattern was taken. */
  lemma DarkFixComplete(s: string)
    ensures forall i :: 0 <= i < |s| ==> !DarkAt(DarkFix(s), i)
  {
    forall i | 0 <= i < |s| ensures !DarkAt(DarkFix(s), i) {
      DarkFixCompleteAt(s, i);
    }
  }

  /** The fix leaves no match at position `i`: where the original had one, `間` became `闇`. */
  lemma DarkFixCompleteAt(s: string, i: nat)
    requires i < |s|
    ensures !DarkAt(DarkFix(s), i)
  {
    var r := DarkFix(s);
    if i + 2 <= |s| {
      assert forall j :: 0 <= j < |s| ==> r[j] == s[j] || r[j] == '闇';
      DarkBack(r, s, i);
      if DarkAt(s, i) {
        assert r[i..i + 2][0] == r[i];
      }
    }
  }

  /** A match read in a text whose characters are the originals or `闇` was a match in the original. */
  lemma DarkBack(r: string, s: string, i: nat)
    requires |r| == |s| && i + 2 <= |s| && forall j :: 0 <= j < |s| ==> r[j] == s[j] || r[j] == '闇'
    ensures DarkAt(r, i) ==> DarkAt(s, i)
  {
    if DarkAt(r, i) {
      assert r[i] == r[i..i + 2][0] && r[i + 1] == r[i..i + 2][1];
      assert s[i..i + 2] == [s[i], s[i + 1]];
      var rt, st := r[i + 2..], s[i + 2..];
      forall j | 0 <= j < |st| ensures rt[j] == st[j] || rt[j] == '闇' {
        assert rt[j] == r[i + 2 + j] && st[j] == s[i + 2 + j];
      }
      TitleBack(rt, st);
    }
  }

  // ---------------------------------------------------------------------------
  // 填 / 土 → 士 after a job prefix
  // ---------------------------------------------------------------------------

  /** The alternatives of the look-behind `(?<=機工|飛空|整備|道|戦|闘|兵)`. */
  function SoldierPrefixes(): seq<string>
  {
    ["機工", "飛空", "整備", "道", "戦", "闘", "兵"]
  }

  predicate AfterPrefix(s: string, i: nat)
    requires i <= |s|
  {
    exists k :: 0 <= k < |SoldierPrefixes()| && EndsWith(s[..i], SoldierPrefixes()[k])
  }

  predicate SoldierAt(s: string, i: nat)
    requires i < |s|
  {
    (s[i] == '填' || s[i] == '土') && AfterPrefix(s, i)
  }

  /**
    `replaceAll(/(?<=機工|飛空|整備|道|戦|闘|兵)(填|土)/gi, '士')`: a one-character
    match whose look-behind reads the original text, so each position is
    decided on its own.
   */
  function SoldierFix(s: string): (r: string)
    ensures |r| == |s|
    ensures forall i :: 0 <= i < |s| ==> r[i] == s[i] || (SoldierAt(s, i) && r[i] == '士')
  {
    seq(|s|, i requires 0 <= i < |s| => if SoldierAt(s, i) then '士' else s[i])
  }

  /** A prefix read before `i` in a text whose characters are the originals or `士` was there in the original. */
  lemma PrefixBack(r: string, s: string, i: nat)
    requires |r| == |s| && i <= |s| && forall j :: 0 <= j < |s| ==> r[j] == s[j] || r[j] == '士'
    ensures AfterPrefix(r, i) ==> AfterPrefix(s, i)
  {
    if AfterPrefix(r, i) {
      var k :| 0 <= k < |SoldierPrefixes()| && EndsWith(r[..i], SoldierPrefixes()[k]);
      var p := SoldierPrefixes()[k];
      assert '士' !in p;
      forall j | 0 <= j < |p| ensures s[i - |p| + j] == p[j] {
        assert r[..i][i - |p|..][j] == p[j];
        assert r[i - |p| + j] == p[j];
      }
      assert s[..i][i - |p|..] == p;
      assert EndsWith(s[..i], p);
    }
  }

  /** After the fix no `填` or `土` follows a job prefix. */
  lemma SoldierFixComplete(s: string)
    ensures forall i :: 0 <= i < |s| ==> !SoldierAt(SoldierFix(s), i)
  {
    var r := SoldierFix(s);
    forall i | 0 <= i < |s| ensures !SoldierAt(r, i) {
      PrefixBack(r, s, i);
    }
  }

  /** Characters that `DarkFix` and `SoldierFix` write. */
  lemma ContextFixChars(s: string)
    ensures forall c :: c in DarkFix(s) ==> c in s || c == '闇'
    ensures forall c :: c in SoldierFix(s) ==> c in s || c == '士'
  {
    var d := DarkFix(s);
    forall c | c in d ensures c in s || c == '闇' {
      var i :| 0 <= i < |d| && d[i] == c;
      assert d[i] == s[i] || d[i] == '闇';
    }
    var f := SoldierFix(s);
    forall c | c in f ensures c in s || c == '士' {
      var i :| 0 <= i < |f| && f[i] == c;
      assert f[i] == s[i] || f[i] == '士';
    }
  }

  /** The word fixes both OCR chains share: the two gunbreaker misreadings, then the two context rules. */
  function WordFix(s: string): string
  {
    var job := ReplaceAll(ReplaceAll(s, "ガンプレイカー", "ガンブレイカー"), "ガンプブレイカー", "ガンブレイカー");
    SoldierFix(DarkFix(job))
  }

  /** Every character `WordFix` writes. */
  const WordFixWrites: string := "ガンブレイカー闇士"

  lemma WordFixChars(s: string)
    ensures forall c :: c in WordFix(s) ==> c in s || c in WordFixWrites
  {
    var job1 := ReplaceAll(s, "ガンプレイカー", "ガンブレイカー");
    var job := ReplaceAll(job1, "ガンプブレイカー", "ガンブレイカー");
    ReplaceAllChars(s, "ガンプレイカー", "ガンブレイカー");
    ReplaceAllChars(job1, "ガンプブレイカー", "ガンブレイカー");
    ContextFixChars(job);
    ContextFixChars(DarkFix(job));
  }

  /** The two context rules write only `闇` and `士`, so they create no string lacking both. */
  lemma ContextNoNew(s: string, q: string)
    requires '闇' !in q && '士' !in q
    ensures Includes(SoldierFix(DarkFix(s)), q) ==> Includes(s, q)
  {
    var d := DarkFix(s);
    if Includes(SoldierFix(d), q) {
      PointwiseNoNew(SoldierFix(d), d, '士', q);
      PointwiseNoNew(d, s, '闇', q);
    }
  }

  /** Neither misreading can overlap a written `ガンブレイカー`. */
  lemma GunbreakerApart()
    ensures Apart("ガンプレイカー", "ガンブレイカー") && Apart("ガンプブレイカー", "ガンブレイカー")
  {
    assert "ガンプレイカー"[2] != "ガンブレイカー"[2];
    assert "ガンプブレイカー"[2] != "ガンブレイカー"[2];
  }

  /** After the word fixes neither misreading of `ガンブレイカー` is left. */
  lemma WordFixGunbreaker(s: string)
    ensures !Includes(WordFix(s), "ガンプレイカー") && !Includes(WordFix(s), "ガンプブレイカー")
  {
    var job1 := ReplaceAll(s, "ガンプレイカー", "ガンブレイカー");
    var job := ReplaceAll(job1, "ガンプブレイカー", "ガンブレイカー");
    GunbreakerApart();
    ReplaceAllClears(s, "ガンプレイカー", "ガンブレイカー");
    ReplaceAllClears(job1, "ガンプブレイカー", "ガンブレイカー");
    if Includes(job, "ガンプレイカー") {
      ReplaceAllNoNew(job1, "ガンプブレイカー", "ガンブレイカー", "ガンプレイカー");
    }
    ContextNoNew(job, "ガンプレイカー");
    ContextNoNew(job, "ガンプブレイカー");
  }

  /** The word fixes create no occurrence of a string none of whose characters they write. */
  lemma WordFixNoNew(s: string, q: string)
    requires q != [] && forall c :: c in q ==> c !in WordFixWrites
    ensures Includes(WordFix(s), q) ==> Includes(s, q)
  {
    var job1 := ReplaceAll(s, "ガンプレイカー", "ガンブレイカー");
    var job := ReplaceAll(job1, "ガンプブレイカー", "ガンブレイカー");
    assert forall c :: c in "ガンブレイカー" ==> c in WordFixWrites;
    DisjointApart(q, "ガンブレイカー");
    ContextNoNew(job, q);
    if Includes(job, q) {
      ReplaceAllNoNew(job1, "ガンプブレイカー", "ガンブレイカー", q);
      ReplaceAllNoNew(s, "ガンプレイカー", "ガンブレイカー", q);
    }
  }

  // ---------------------------------------------------------------------------
  // Lines handed on for translation
  // ---------------------------------------------------------------------------

  /** The pieces that are not `''`, in order: the `if (text !== '')` filter of both dispatch loops. */
  function NonEmpty(pieces: seq<string>): (r: seq<string>)
    ensures |r| <= |pieces|
    ensures forall k :: 0 <= k < |r| ==> r[k] != ""
    ensures forall p :: p in r <==> p in pieces && p != ""
    decreases |pieces|
  {
    if pieces == [] then []
    else
      var rest := NonEmpty(pieces[1..]);
      assert forall p :: p in pieces <==> p == pieces[0] || p in pieces[1..];
      if pieces[0] != "" then [pieces[0]] + rest else rest
  }

  lemma NonEmptyStep(pieces: seq<string>, index: nat)
    requires index < |pieces|
    ensures NonEmpty(pieces[..index + 1])
         == NonEmpty(pieces[..index]) + (if pieces[index] != "" then [pieces[index]] else [])
  {
    NonEmptyConcat(pieces[..index], [pieces[index]]);
    assert pieces[..index + 1] == pieces[..index] + [pieces[index]];
    assert [pieces[index]][1..] == [];
  }

  lemma {:induction false} NonEmptyConcat(a: seq<string>, b: seq<string>)
    ensures NonEmpty(a + b) == NonEmpty(a) + NonEmpty(b)
    decreases |a|
  {
    if a == [] {
      assert a + b == b;
    } else {
      assert (a + b)[0] == a[0];
      assert (a + b)[1..] == a[1..] + b;
      NonEmptyConcat(a[1..], b);
    }
  }
}
