/** A JavaScript value that may be `undefined`. */
module Optional {
  datatype Option<+T> = None | Some(value: T)
}

/**
  The JavaScript string operations the core is built from, over Dafny strings.
  Every literal the core searches for lies in the Basic Multilingual Plane,
  where one character is one UTF-16 code unit.
 */
module JsString {

  /** `s.startsWith(p)` */
  predicate StartsWith(s: string, p: string)
  {
    |p| <= |s| && s[..|p|] == p
  }

  /** `s.includes(p)`: some position of `s` starts an occurrence of `p` (always true for `p == ""`). */
  predicate Includes(s: string, p: string)
    decreases |s|
  {
    StartsWith(s, p) || (s != [] && Includes(s[1..], p))
  }

  /** An occurrence found at a position makes `Includes` true. */
  lemma {:induction false} IncludesAt(s: string, p: string, i: nat)
    requires i + |p| <= |s| && s[i..i + |p|] == p
    ensures Includes(s, p)
    decreases i
  {
    if i > 0 {
      assert s[1..][i - 1..i - 1 + |p|] == s[i..i + |p|];
      IncludesAt(s[1..], p, i - 1);
    }
  }

  /** A pattern longer than the text never occurs in it. */
  lemma {:induction false} IncludesNeedsRoom(s: string, p: string)
    requires |s| < |p|
    ensures !Includes(s, p)
    decreases |s|
  {
    if s != [] {
      IncludesNeedsRoom(s[1..], p);
    }
  }

  /** A one-character pattern occurs exactly when that character does. */
  lemma {:induction false} IncludesChar(s: string, c: char)
    ensures Includes(s, [c]) <==> c in s
    decreases |s|
  {
    if s != [] {
      IncludesChar(s[1..], c);
      assert s == [s[0]] + s[1..];
    }
  }

  /**
    `s.replaceAll(pat, rep)` for a string pattern: occurrences are found left to
    right and do not overlap; the empty pattern matches at every boundary, so
    `rep` is inserted before each character and once at the end.
   */
  function ReplaceAll(s: string, pat: string, rep: string): string
    decreases |s|
  {
    if pat == [] then
      if s == [] then rep else rep + [s[0]] + ReplaceAll(s[1..], pat, rep)
    else if |s| < |pat| then s
    else if s[..|pat|] == pat then rep + ReplaceAll(s[|pat|..], pat, rep)
    else [s[0]] + ReplaceAll(s[1..], pat, rep)
  }

  /** Every character of the result comes from the text or from the replacement. */
  lemma {:induction false} ReplaceAllChars(s: string, pat: string, rep: string)
    ensures forall c :: c in ReplaceAll(s, pat, rep) ==> c in s || c in rep
    decreases |s|
  {
    if pat == [] {
      if s != [] {
        ReplaceAllChars(s[1..], pat, rep);
      }
    } else if |s| < |pat| {
    } else if s[..|pat|] == pat {
      ReplaceAllChars(s[|pat|..], pat, rep);
      forall c | c in s[|pat|..] ensures c in s {
        var k :| 0 <= k < |s[|pat|..]| && s[|pat|..][k] == c;
        assert s[|pat| + k] == c;
      }
    } else {
      ReplaceAllChars(s[1..], pat, rep);
      forall c | c in s[1..] ensures c in s {
        var k :| 0 <= k < |s[1..]| && s[1..][k] == c;
        assert s[1 + k] == c;
      }
    }
  }

  /** Replacing a character by text free of it leaves none of it behind. */
  lemma {:induction false} ReplaceAllRemovesChar(s: string, c: char, rep: string)
    requires c !in rep
    ensures c !in ReplaceAll(s, [c], rep)
    decreases |s|
  {
    if |s| >= 1 {
      ReplaceAllRemovesChar(s[1..], c, rep);
      if s[..1] == [c] {
        assert ReplaceAll(s, [c], rep) == rep + ReplaceAll(s[1..], [c], rep);
      } else {
        assert s[0] != c;
        assert ReplaceAll(s, [c], rep) == [s[0]] + ReplaceAll(s[1..], [c], rep);
      }
    }
  }

  /** A character the pattern does not hold survives the replacement. */
  lemma {:induction false} ReplaceAllKeepsChar(s: string, pat: string, rep: string, c: char)
    requires pat != [] && c !in pat && c in s
    ensures c in ReplaceAll(s, pat, rep)
    decreases |s|
  {
    if |s| >= |pat| {
      if s[..|pat|] == pat {
        forall j | 0 <= j < |pat| ensures s[j] != c {
          assert s[j] == s[..|pat|][j];
        }
        var k :| 0 <= k < |s| && s[k] == c;
        assert s[|pat|..][k - |pat|] == c;
        ReplaceAllKeepsChar(s[|pat|..], pat, rep, c);
      } else if s[0] != c {
        var k :| 0 <= k < |s| && s[k] == c;
        assert s[1..][k - 1] == c;
        ReplaceAllKeepsChar(s[1..], pat, rep, c);
      }
    }
  }

  /** A replacement as long as its non-empty pattern keeps the length of the text. */
  lemma {:induction false} ReplaceAllLength(s: string, pat: string, rep: string)
    requires pat != [] && |rep| == |pat|
    ensures |ReplaceAll(s, pat, rep)| == |s|
    decreases |s|
  {
    if |s| >= |pat| {
      if s[..|pat|] == pat {
        ReplaceAllLength(s[|pat|..], pat, rep);
      } else {
        ReplaceAllLength(s[1..], pat, rep);
      }
    }
  }

  /** Replacing a pattern by itself is the identity, the empty pattern included. */
  lemma {:induction false} ReplaceAllSame(s: string, pat: string)
    ensures ReplaceAll(s, pat, pat) == s
    decreases |s|
  {
    if pat == [] {
      if s != [] {
        ReplaceAllSame(s[1..], pat);
        assert s == [s[0]] + s[1..];
      }
    } else if |s| >= |pat| {
      if s[..|pat|] == pat {
        ReplaceAllSame(s[|pat|..], pat);
        assert s == s[..|pat|] + s[|pat|..];
      } else {
        ReplaceAllSame(s[1..], pat);
        assert s == [s[0]] + s[1..];
      }
    }
  }

  /** Replacing a pattern that does not occur changes nothing. */
  lemma {:induction false} ReplaceAllAbsent(s: string, pat: string, rep: string)
    requires pat != [] && !Includes(s, pat)
    ensures ReplaceAll(s, pat, rep) == s
    decreases |s|
  {
    if |s| >= |pat| {
      ReplaceAllAbsent(s[1..], pat, rep);
      assert s == [s[0]] + s[1..];
    }
  }

  /**
    Hiding a pattern behind a character the text lacks and then replacing that
    character is the same as replacing the pattern directly.
   */
  lemma {:induction false} ReplaceThroughToken(s: string, pat: string, t: char, rep: string)
    requires pat != [] && t !in s
    ensures ReplaceAll(ReplaceAll(s, pat, [t]), [t], rep) == ReplaceAll(s, pat, rep)
    decreases |s|
  {
    if |s| < |pat| {
      IncludesChar(s, t);
      ReplaceAllAbsent(s, [t], rep);
    } else if s[..|pat|] == pat {
      var rest := s[|pat|..];
      assert forall c :: c in rest ==> c in s by {
        forall c | c in rest ensures c in s {
          var k :| 0 <= k < |rest| && rest[k] == c;
          assert s[|pat| + k] == c;
        }
      }
      ReplaceThroughToken(rest, pat, t, rep);
      var mid := ReplaceAll(rest, pat, [t]);
      assert ([t] + mid)[..1] == [t];
      assert ([t] + mid)[1..] == mid;
    } else {
      var rest := s[1..];
      assert forall c :: c in rest ==> c in s by {
        forall c | c in rest ensures c in s {
          var k :| 0 <= k < |rest| && rest[k] == c;
          assert s[1 + k] == c;
        }
      }
      ReplaceThroughToken(rest, pat, t, rep);
      var mid := ReplaceAll(rest, pat, [t]);
      assert s[0] in s;
      assert ([s[0]] + mid)[..1] != [t];
      assert ([s[0]] + mid)[1..] == mid;
    }
  }

  /** An occurrence of a non-empty pattern contains its first character. */
  lemma {:induction false} IncludesFirstChar(s: string, p: string)
    requires p != [] && Includes(s, p)
    ensures p[0] in s
    decreases |s|
  {
    if !StartsWith(s, p) {
      IncludesFirstChar(s[1..], p);
      assert s[1..] <= s[1..] && forall c :: c in s[1..] ==> c in s;
    }
  }

  /** A pattern whose first character is missing from the text does not occur in it. */
  lemma NotIncludedFirst(s: string, p: string)
    requires p != [] && p[0] !in s
    ensures !Includes(s, p)
  {
    if Includes(s, p) {
      IncludesFirstChar(s, p);
    }
  }

  /** A text that contains `p + q` contains `p`. */
  lemma {:induction false} IncludesPrefix(s: string, p: string, q: string)
    requires Includes(s, p + q)
    ensures Includes(s, p)
    decreases |s|
  {
    if StartsWith(s, p + q) {
      assert s[..|p|] == (p + q)[..|p|] == p;
    } else {
      IncludesPrefix(s[1..], p, q);
    }
  }

  /** Text that lacks the pattern's first character cannot hold an occurrence. */
  lemma {:induction false} IncludesSkip(x: string, y: string, p: string)
    requires p != [] && p[0] !in x
    ensures Includes(x + y, p) <==> Includes(y, p)
    decreases |x|
  {
    if x != [] {
      assert (x + y)[0] == x[0] != p[0];
      assert !StartsWith(x + y, p);
      assert (x + y)[1..] == x[1..] + y;
      IncludesSkip(x[1..], y, p);
    } else {
      assert x + y == y;
    }
  }

  /** Text that lacks the pattern's first character passes through `replaceAll` unchanged. */
  lemma {:induction false} ReplaceAllSkip(x: string, y: string, p: string, rep: string)
    requires p != [] && p[0] !in x
    ensures ReplaceAll(x + y, p, rep) == x + ReplaceAll(y, p, rep)
    decreases |x|
  {
    if x == [] {
      assert x + y == y;
    } else if |x + y| < |p| {
      assert ReplaceAll(y, p, rep) == y;
    } else {
      var s := x + y;
      assert s[0] == x[0] != p[0];
      assert s[..|p|][0] == s[0];
      assert s[1..] == x[1..] + y;
      assert ReplaceAll(s, p, rep) == [s[0]] + ReplaceAll(s[1..], p, rep);
      ReplaceAllSkip(x[1..], y, p, rep);
      ConsAppend(x, ReplaceAll(y, p, rep));
    }
  }

  /** An occurrence in a suffix of the text is an occurrence in the text. */
  lemma {:induction false} IncludesDrop(s: string, k: nat, q: string)
    requires k <= |s| && Includes(s[k..], q)
    ensures Includes(s, q)
    decreases k
  {
    if k > 0 {
      assert s[1..][k - 1..] == s[k..];
      IncludesDrop(s[1..], k - 1, q);
    }
  }

  /**
    No occurrence of `q` can overlap a copy of `rep`: `q` cannot start inside
    `rep` after its first character, cannot run into `rep` from the left, and
    is not a prefix-match of `rep` either.
   */
  predicate Apart(q: string, rep: string)
  {
    && q != [] && rep != []
    && (forall j :: 0 < j < |rep| ==> rep[j] != q[0])
    && (forall j :: 0 < j < |q| ==> q[j] != rep[0])
    && (exists j :: 0 <= j < |q| && j < |rep| && q[j] != rep[j])
  }

  /** Strings that share no character are apart. */
  lemma DisjointApart(q: string, rep: string)
    requires q != [] && rep != []
    requires forall c :: c in q ==> c !in rep
    ensures Apart(q, rep)
  {
    assert q[0] in q && rep[0] in rep;
  }

  /** A text that starts with `rep` followed by anything holds `q` only after `rep`. */
  lemma IncludesPastRep(rep: string, t: string, q: string)
    requires Apart(q, rep)
    ensures Includes(rep + t, q) <==> Includes(t, q)
  {
    var j :| 0 <= j < |q| && j < |rep| && q[j] != rep[j];
    assert (rep + t)[j] == rep[j];
    assert !StartsWith(rep + t, q);
    assert (rep + t)[1..] == rep[1..] + t;
    IncludesSkip(rep[1..], t, q);
  }

  /** A prefix of the result that lacks the first character of `rep` is a prefix of the text. */
  lemma {:induction false} PrefixBack(t: string, p: string, rep: string, q: string)
    requires p != [] && rep != [] && rep[0] !in q
    requires StartsWith(ReplaceAll(t, p, rep), q)
    ensures StartsWith(t, q)
    decreases |t|
  {
    if q != [] && |t| >= |p| {
      if t[..|p|] != p {
        var tail := ReplaceAll(t[1..], p, rep);
        assert ReplaceAll(t, p, rep) == [t[0]] + tail;
        assert StartsWith(tail, q[1..]) by {
          assert tail[..|q| - 1] == ([t[0]] + tail)[1..|q|];
        }
        assert forall c :: c in q[1..] ==> c in q;
        PrefixBack(t[1..], p, rep, q[1..]);
        assert t[..|q|] == [t[0]] + t[1..][..|q| - 1];
      }
    }
  }

  /** `replaceAll` creates no occurrence of a string apart from its replacement. */
  lemma {:induction false} ReplaceAllNoNew(s: string, p: string, rep: string, q: string)
    requires p != [] && Apart(q, rep)
    requires Includes(ReplaceAll(s, p, rep), q)
    ensures Includes(s, q)
    decreases |s|
  {
    if |s| >= |p| {
      if s[..|p|] == p {
        IncludesPastRep(rep, ReplaceAll(s[|p|..], p, rep), q);
        ReplaceAllNoNew(s[|p|..], p, rep, q);
        IncludesDrop(s, |p|, q);
      } else {
        var tail := ReplaceAll(s[1..], p, rep);
        assert ReplaceAll(s, p, rep) == [s[0]] + tail;
        assert ([s[0]] + tail)[1..] == tail;
        if StartsWith([s[0]] + tail, q) {
          assert StartsWith(tail, q[1..]) by {
            assert tail[..|q| - 1] == ([s[0]] + tail)[1..|q|];
          }
          PrefixBack(s[1..], p, rep, q[1..]);
          assert s[..|q|] == [s[0]] + s[1..][..|q| - 1];
        } else {
          ReplaceAllNoNew(s[1..], p, rep, q);
        }
      }
    }
  }

  /** `replaceAll` leaves no occurrence of its pattern when the replacement is apart from it. */
  lemma {:induction false} ReplaceAllClears(s: string, p: string, rep: string)
    requires Apart(p, rep)
    ensures !Includes(ReplaceAll(s, p, rep), p)
    decreases |s|
  {
    if |s| < |p| {
      IncludesNeedsRoom(s, p);
    } else if s[..|p|] == p {
      IncludesPastRep(rep, ReplaceAll(s[|p|..], p, rep), p);
      ReplaceAllClears(s[|p|..], p, rep);
    } else {
      var tail := ReplaceAll(s[1..], p, rep);
      assert ReplaceAll(s, p, rep) == [s[0]] + tail;
      assert ([s[0]] + tail)[1..] == tail;
      ReplaceAllClears(s[1..], p, rep);
      if StartsWith([s[0]] + tail, p) {
        assert StartsWith(tail, p[1..]) by {
          assert tail[..|p| - 1] == ([s[0]] + tail)[1..|p|];
        }
        PrefixBack(s[1..], p, rep, p[1..]);
      }
    }
  }

  /** A change position by position that writes only `x` creates no occurrence of a string without `x`. */
  lemma {:induction false} PointwiseNoNew(r: string, s: string, x: char, q: string)
    requires |r| == |s| && forall i :: 0 <= i < |r| ==> r[i] == s[i] || r[i] == x
    requires x !in q && Includes(r, q)
    ensures Includes(s, q)
    decreases |r|
  {
    if StartsWith(r, q) {
      forall i | 0 <= i < |q| ensures s[i] == q[i] {
        assert r[i] == q[i];
        assert q[i] in q;
      }
      assert s[..|q|] == q;
    } else {
      PointwiseNoNew(r[1..], s[1..], x, q);
    }
  }

  /** Putting the first character back in front: `[x[0]] + (x[1..] + t) == x + t`. */
  lemma ConsAppend(x: string, t: string)
    requires x != []
    ensures [x[0]] + (x[1..] + t) == x + t
  {
    assert x == [x[0]] + x[1..];
  }

  /** A text that starts with the pattern has that occurrence replaced first. */
  lemma ReplaceAllHead(p: string, y: string, rep: string)
    requires p != []
    ensures ReplaceAll(p + y, p, rep) == rep + ReplaceAll(y, p, rep)
  {
    assert (p + y)[..|p|] == p;
    assert (p + y)[|p|..] == y;
  }

  /** `s` with every `c` taken out, the rest in order. */
  function Without(s: string, c: char): (r: string)
    ensures forall x :: x in r <==> x in s && x != c
    ensures |r| <= |s|
  {
    if s == [] then []
    else if s[0] == c then Without(s[1..], c)
    else [s[0]] + Without(s[1..], c)
  }

  /** Taking out a character that is not there changes nothing. */
  lemma {:induction false} WithoutAbsent(s: string, c: char)
    requires c !in s
    ensures Without(s, c) == s
    decreases |s|
  {
    if s != [] {
      WithoutAbsent(s[1..], c);
      assert s == [s[0]] + s[1..];
    }
  }

  /** `s.replaceAll(c, '')` for a one-character pattern takes that character out. */
  lemma {:induction false} ReplaceCharByNothing(s: string, c: char)
    ensures ReplaceAll(s, [c], "") == Without(s, c)
    decreases |s|
  {
    if s != [] {
      ReplaceCharByNothing(s[1..], c);
    }
  }

  /** `s` with every `c` turned into `d`, position by position. */
  function Swapped(s: string, c: char, d: char): string
  {
    seq(|s|, i requires 0 <= i < |s| => if s[i] == c then d else s[i])
  }

  /** `s.replaceAll(c, d)` for a one-character pattern and replacement rewrites position by position. */
  lemma {:induction false} ReplaceCharByChar(s: string, c: char, d: char)
    ensures ReplaceAll(s, [c], [d]) == Swapped(s, c, d)
    decreases |s|
  {
    if s != [] {
      ReplaceCharByChar(s[1..], c, d);
      assert Swapped(s, c, d) == [if s[0] == c then d else s[0]] + Swapped(s[1..], c, d);
    }
  }

  /** No character occurs twice. */
  predicate Distinct(s: string)
  {
    forall i, j :: 0 <= i < j < |s| ==> s[i] != s[j]
  }

  /** A string whose neighbouring characters increase has no repeated character. */
  lemma IncreasingDistinct(s: string)
    requires forall i :: 0 <= i < |s| - 1 ==> s[i] < s[i + 1]
    ensures Distinct(s)
  {
    forall i, j | 0 <= i < j < |s| ensures s[i] != s[j] {
      IncreasingLess(s, i, j);
    }
  }

  lemma {:induction false} IncreasingLess(s: string, i: nat, j: nat)
    requires forall k :: 0 <= k < |s| - 1 ==> s[k] < s[k + 1]
    requires i < j < |s|
    ensures s[i] < s[j]
    decreases j - i
  {
    if j > i + 1 {
      IncreasingLess(s, i, j - 1);
    }
  }

  /** Taking a character out keeps the others distinct. */
  /** A string of distinct characters has as many different characters as it is long. */
  lemma {:induction false} DistinctElements(s: string)
    requires Distinct(s)
    ensures |(set x | x in s)| == |s|
    decreases |s|
  {
    if s != [] {
      var t := s[1..];
      assert Distinct(t) by {
        forall i, j | 0 <= i < j < |t| ensures t[i] != t[j] {
          assert t[i] == s[i + 1] && t[j] == s[j + 1];
        }
      }
      DistinctElements(t);
      forall k | 0 <= k < |t| ensures t[k] != s[0] {
        assert t[k] == s[k + 1];
      }
      assert (set x | x in s) == {s[0]} + (set x | x in t) by {
        assert s == [s[0]] + t;
      }
    }
  }

  lemma {:induction false} WithoutDistinct(s: string, c: char)
    requires Distinct(s)
    ensures Distinct(Without(s, c))
    decreases |s|
  {
    if s != [] {
      WithoutDistinct(s[1..], c);
      if s[0] != c {
        assert s[0] !in s[1..];
      }
    }
  }

  /** `c.toUpperCase()` for ASCII; every other character is left as it is. */
  function UpperAscii(c: char): (r: char)
    ensures 'a' <= c <= 'z' ==> 'A' <= r <= 'Z' && r as int == c as int - 32
    ensures !('a' <= c <= 'z') ==> r == c
  {
    if 'a' <= c <= 'z' then (c as int - 32) as char else c
  }

  /** `s.split(sep)` for a one-character separator. */
  function Split(s: string, sep: char): (pieces: seq<string>)
    ensures |pieces| >= 1
    ensures forall k :: 0 <= k < |pieces| ==> sep !in pieces[k]
    decreases |s|
  {
    if s == [] then [[]]
    else
      var rest := Split(s[1..], sep);
      if s[0] == sep then [[]] + rest else [[s[0]] + rest[0]] + rest[1..]
  }

  /** `pieces.join(sep)` */
  function Join(pieces: seq<string>, sep: string): string
  {
    if |pieces| == 0 then []
    else if |pieces| == 1 then pieces[0]
    else pieces[0] + sep + Join(pieces[1..], sep)
  }

  /** Joining the pieces of a split with the separator gives back the text. */
  lemma {:induction false} JoinSplit(s: string, sep: char)
    ensures Join(Split(s, sep), [sep]) == s
    decreases |s|
  {
    if s != [] {
      var rest := Split(s[1..], sep);
      JoinSplit(s[1..], sep);
      if s[0] == sep {
        assert Join([[]] + rest, [sep]) == [] + [sep] + Join(rest, [sep]);
      } else if |rest| == 1 {
        assert Join([[s[0]] + rest[0]] + rest[1..], [sep]) == [s[0]] + rest[0];
      } else {
        assert ([[s[0]] + rest[0]] + rest[1..])[1..] == rest[1..];
        assert Join(rest, [sep]) == rest[0] + [sep] + Join(rest[1..], [sep]);
      }
    }
  }

  /** A piece free of the separator, followed by the separator, splits off as one piece. */
  lemma {:induction false} SplitAfterPiece(x: string, sep: char, y: string)
    requires sep !in x
    ensures Split(x + [sep] + y, sep) == [x] + Split(y, sep)
    decreases |x|
  {
    if x == [] {
      assert ([sep] + y)[1..] == y;
    } else {
      assert x[0] in x;
      SplitAfterPiece(x[1..], sep, y);
      assert (x + [sep] + y)[0] == x[0];
      assert (x + [sep] + y)[1..] == x[1..] + [sep] + y;
      assert [x[0]] + x[1..] == x;
    }
  }

  /** Text free of the separator splits into itself alone. */
  lemma {:induction false} SplitWhole(x: string, sep: char)
    requires sep !in x
    ensures Split(x, sep) == [x]
    decreases |x|
  {
    if x != [] {
      assert x[0] in x;
      SplitWhole(x[1..], sep);
      assert [x[0]] + x[1..] == x;
    }
  }

  /** Splitting a join of separator-free pieces gives back the pieces. */
  lemma {:induction false} SplitJoin(pieces: seq<string>, sep: char)
    requires |pieces| >= 1
    requires forall k :: 0 <= k < |pieces| ==> sep !in pieces[k]
    ensures Split(Join(pieces, [sep]), sep) == pieces
    decreases |pieces|
  {
    if |pieces| == 1 {
      SplitWhole(pieces[0], sep);
    } else {
      SplitJoin(pieces[1..], sep);
      SplitAfterPiece(pieces[0], sep, Join(pieces[1..], [sep]));
    }
  }

  /** The decimal digit for `d`. */
  function DigitChar(d: nat): (c: char)
    requires d < 10
    ensures '0' <= c <= '9' && c as int - '0' as int == d
  {
    ('0' as int + d) as char
  }

  /** `String(n)` for a non-negative integer: its decimal digits, without leading zeros. */
  function NatToString(n: nat): (r: string)
    ensures 1 <= |r|
    ensures forall k :: 0 <= k < |r| ==> '0' <= r[k] <= '9'
    ensures |r| > 1 ==> r[0] != '0'
    decreases n
  {
    if n < 10 then [DigitChar(n)] else NatToString(n / 10) + [DigitChar(n % 10)]
  }

  /** The value of a string of decimal digits. */
  function DigitsValue(s: string): nat
    requires forall k :: 0 <= k < |s| ==> '0' <= s[k] <= '9'
  {
    if s == [] then 0 else 10 * DigitsValue(s[..|s| - 1]) + (s[|s| - 1] as int - '0' as int)
  }

  /** Reading the decimal string back gives the number: distinct numbers print differently. */
  lemma {:induction false} NatToStringValue(n: nat)
    ensures DigitsValue(NatToString(n)) == n
    decreases n
  {
    if n >= 10 {
      NatToStringValue(n / 10);
      var r := NatToString(n);
      assert r[..|r| - 1] == NatToString(n / 10);
    }
  }

  /** `String(i)` for an integer: a minus sign before the digits of a negative one. */
  function IntToString(i: int): (r: string)
    ensures |r| >= 1 && (i < 0 <==> r[0] == '-')
  {
    if i < 0 then "-" + NatToString(-i) else NatToString(i)
  }

  /** Distinct integers print differently. */
  lemma IntToStringInjective(i: int, j: int)
    requires IntToString(i) == IntToString(j)
    ensures i == j
  {
    NatToStringValue(if i < 0 then -i else i);
    NatToStringValue(if j < 0 then -j else j);
    if i < 0 {
      assert IntToString(i)[1..] == NatToString(-i);
      assert IntToString(j)[1..] == NatToString(-j);
    }
  }

  /** `s.padStart(2, '0')` */
  function PadStart2(s: string): (r: string)
    ensures |s| >= 2 ==> r == s
    ensures |s| < 2 ==> |r| == 2 && r[2 - |s|..] == s && forall k :: 0 <= k < 2 - |s| ==> r[k] == '0'
  {
    if |s| >= 2 then s else seq(2 - |s|, _ => '0') + s
  }
}
