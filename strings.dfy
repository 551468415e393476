/** The Python string operations the source relies on (`str.split` with a
    one-character separator, `str.join`, `str.replace`, `str.strip`,
    `str.rstrip`, `str.lower`, `in`, `startswith`, `endswith`), stated on
    `seq<char>`. */
module Strings {

  predicate StartsWith(s: string, prefix: string) {
    prefix <= s
  }

  predicate EndsWith(s: string, suffix: string) {
    |suffix| <= |s| && s[|s| - |suffix|..] == suffix
  }

  /** Python's `needle in s` for strings. */
  predicate Contains(s: string, needle: string)
    decreases |s|
  {
    needle <= s || (s != [] && Contains(s[1..], needle))
  }

  lemma {:induction false} ContainsAt(s: string, needle: string, i: nat)
    requires i + |needle| <= |s| && s[i..i + |needle|] == needle
    ensures Contains(s, needle)
    decreases i
  {
    if i > 0 {
      assert s[1..][i - 1..i - 1 + |needle|] == needle;
      ContainsAt(s[1..], needle, i - 1);
    } else {
      assert needle <= s;
    }
  }

  /** `s.split(c)`: the pieces between occurrences of `c`; never empty. */
  function Split(s: string, c: char): (r: seq<string>)
    ensures |r| >= 1
    ensures forall i :: 0 <= i < |r| ==> c !in r[i]
    ensures |r| == 1 <==> c !in s
  {
    if s == [] then [[]]
    else
      var rest := Split(s[1..], c);
      if s[0] == c then [[]] + rest
      else [[s[0]] + rest[0]] + rest[1..]
  }

  /** `sep.join(parts)` for a one-character separator. */
  function Join(parts: seq<string>, sep: char): string
  {
    if |parts| == 0 then []
    else if |parts| == 1 then parts[0]
    else parts[0] + [sep] + Join(parts[1..], sep)
  }

  /** Splitting and joining again gives the original string back. */
  lemma {:induction false} JoinSplit(s: string, c: char)
    ensures Join(Split(s, c), c) == s
  {
    if s != [] {
      JoinSplit(s[1..], c);
      var rest := Split(s[1..], c);
      if s[0] != c {
        if |rest| > 1 {
          assert Join(rest, c) == rest[0] + [c] + Join(rest[1..], c);
        }
        assert [s[0]] + Join(rest, c) == s;
      }
    }
  }

  lemma {:induction false} SplitNoSep(s: string, c: char)
    requires c !in s
    ensures Split(s, c) == [s]
  {
    if s != [] {
      SplitNoSep(s[1..], c);
      assert [s[0]] + s[1..] == s;
    }
  }

  lemma {:induction false} SplitAfterPiece(x: string, y: string, c: char)
    requires c !in x
    ensures Split(x + [c] + y, c) == [x] + Split(y, c)
  {
    if x != [] {
      assert (x + [c] + y)[1..] == x[1..] + [c] + y;
      SplitAfterPiece(x[1..], y, c);
      assert [x[0]] + x[1..] == x;
    } else {
      assert (x + [c] + y)[1..] == y;
    }
  }

  /** Joining pieces free of the separator and splitting again gives the
      pieces back. */
  lemma {:induction false} SplitJoin(parts: seq<string>, c: char)
    requires |parts| >= 1
    requires forall i :: 0 <= i < |parts| ==> c !in parts[i]
    ensures Split(Join(parts, c), c) == parts
  {
    if |parts| == 1 {
      SplitNoSep(parts[0], c);
    } else {
      SplitJoin(parts[1..], c);
      SplitAfterPiece(parts[0], Join(parts[1..], c), c);
      assert [parts[0]] + parts[1..] == parts;
    }
  }

  /** `s.replace(a, b)` for single characters. */
  function ReplaceChar(s: string, a: char, b: char): (r: string)
    ensures |r| == |s|
    ensures forall i :: 0 <= i < |s| ==> r[i] == (if s[i] == a then b else s[i])
  {
    if s == [] then [] else [if s[0] == a then b else s[0]] + ReplaceChar(s[1..], a, b)
  }

  /** Replacing `a` by a character `b` that does not occur, then splitting at
      `b`, is the same as splitting at `a`. */
  lemma {:induction false} SplitReplaced(s: string, a: char, b: char)
    requires b !in s && a != b
    ensures Split(ReplaceChar(s, a, b), b) == Split(s, a)
  {
    if s != [] {
      SplitReplaced(s[1..], a, b);
      assert ReplaceChar(s, a, b)[1..] == ReplaceChar(s[1..], a, b);
    }
  }

  /** Joining pieces free of `a` at `a` and then replacing `a` by `b` is
      joining them at `b`. */
  lemma {:induction false} JoinReplaced(parts: seq<string>, a: char, b: char)
    requires forall i :: 0 <= i < |parts| ==> a !in parts[i]
    ensures ReplaceChar(Join(parts, a), a, b) == Join(parts, b)
  {
    if |parts| == 1 {
      ReplaceAround(parts[0], [], a, b);
      assert ReplaceChar(parts[0], a, b) == parts[0] by {
        var r := ReplaceChar(parts[0], a, b);
        assert forall i :: 0 <= i < |r| ==> r[i] == parts[0][i];
      }
    } else if |parts| > 1 {
      JoinReplaced(parts[1..], a, b);
      ReplaceAround(parts[0], Join(parts[1..], a), a, b);
    }
  }

  lemma ReplaceAround(x: string, y: string, a: char, b: char)
    requires a !in x
    ensures ReplaceChar(x + [a] + y, a, b) == x + [b] + ReplaceChar(y, a, b)
  {
    var l := ReplaceChar(x + [a] + y, a, b);
    var r := x + [b] + ReplaceChar(y, a, b);
    assert |l| == |r|;
    forall i | 0 <= i < |l| ensures l[i] == r[i] {
      if i < |x| {
        assert (x + [a] + y)[i] == x[i];
      } else if i == |x| {
      } else {
        assert (x + [a] + y)[i] == y[i - |x| - 1];
      }
    }
  }

  lemma ReplaceAbsent(s: string, a: char, b: char)
    requires a !in s
    ensures ReplaceChar(s, a, b) == s
  {
    var r := ReplaceChar(s, a, b);
    assert forall i :: 0 <= i < |s| ==> r[i] == s[i];
  }

  lemma ReplaceConcat(s: string, t: string, a: char, b: char)
    ensures ReplaceChar(s + t, a, b) == ReplaceChar(s, a, b) + ReplaceChar(t, a, b)
  {
    var l := ReplaceChar(s + t, a, b);
    var r := ReplaceChar(s, a, b) + ReplaceChar(t, a, b);
    assert forall i :: 0 <= i < |l| ==> l[i] == r[i];
  }

  /** `s.replace(pat, rep)` for a non-empty pattern: every occurrence,
      scanning left to right without overlap. */
  function ReplaceAll(s: string, pat: string, rep: string): string
    requires |pat| > 0
    decreases |s|
  {
    if |s| < |pat| then s
    else if s[..|pat|] == pat then rep + ReplaceAll(s[|pat|..], pat, rep)
    else [s[0]] + ReplaceAll(s[1..], pat, rep)
  }

  /** A string without the pattern is left alone. */
  lemma {:induction false} ReplaceAllAbsent(s: string, pat: string, rep: string)
    requires |pat| > 0 && !Contains(s, pat)
    ensures ReplaceAll(s, pat, rep) == s
    decreases |s|
  {
    if |s| >= |pat| {
      assert s[..|pat|] != pat;
      ReplaceAllAbsent(s[1..], pat, rep);
    }
  }

  lemma {:induction false} ContainsLength(s: string, needle: string)
    requires Contains(s, needle)
    ensures |needle| <= |s|
    decreases |s|
  {
    if !(needle <= s) {
      ContainsLength(s[1..], needle);
    }
  }

  /** Removing every occurrence never lengthens a string ... */
  lemma {:induction false} RemoveAllNoLonger(s: string, pat: string)
    requires |pat| > 0
    ensures |ReplaceAll(s, pat, "")| <= |s|
    decreases |s|
  {
    if |s| >= |pat| {
      if s[..|pat|] == pat {
        RemoveAllNoLonger(s[|pat|..], pat);
      } else {
        RemoveAllNoLonger(s[1..], pat);
      }
    }
  }

  /** ... and removes at least one pattern's length from a string that
      contains it ... */
  lemma {:induction false} RemoveAllShorter(s: string, pat: string)
    requires |pat| > 0 && Contains(s, pat)
    ensures |ReplaceAll(s, pat, "")| <= |s| - |pat|
    decreases |s|
  {
    ContainsLength(s, pat);
    if s[..|pat|] == pat {
      RemoveAllNoLonger(s[|pat|..], pat);
    } else {
      assert !(pat <= s);
      RemoveAllShorter(s[1..], pat);
    }
  }

  /** ... and two from a string that contains it and then ends with it. */
  lemma {:induction false} RemoveAllTwice(x: string, pat: string)
    requires |pat| > 0 && Contains(x, pat)
    ensures |ReplaceAll(x + pat, pat, "")| <= |x| - |pat|
    decreases |x|
  {
    var s := x + pat;
    ContainsLength(x, pat);
    assert s[..|pat|] == x[..|pat|];
    if x[..|pat|] == pat {
      var t := x[|pat|..];
      assert s[|pat|..] == t + pat;
      if Contains(t, pat) {
        RemoveAllTwice(t, pat);
      } else {
        assert (t + pat)[|t|..|t| + |pat|] == pat;
        ContainsAt(t + pat, pat, |t|);
        RemoveAllShorter(t + pat, pat);
      }
    } else {
      assert !(pat <= x);
      assert s[1..] == x[1..] + pat;
      RemoveAllTwice(x[1..], pat);
    }
  }

  /** Python's `str.isspace` for one character (the characters `strip()`
      removes). */
  predicate IsSpace(c: char) {
    c == ' ' || ('\t' <= c <= '\r') || ('\U{1C}' <= c <= '\U{1F}')
    || c == '\U{85}' || c == '\U{A0}' || c == '\U{1680}'
    || ('\U{2000}' <= c <= '\U{200A}')
    || c == '\U{2028}' || c == '\U{2029}' || c == '\U{202F}' || c == '\U{205F}' || c == '\U{3000}'
  }

  function LStrip(s: string): (r: string)
    ensures r == [] || !IsSpace(r[0])
    ensures |r| <= |s| && r == s[|s| - |r|..]
  {
    if s != [] && IsSpace(s[0]) then LStrip(s[1..]) else s
  }

  function RStrip(s: string): (r: string)
    ensures r == [] || !IsSpace(r[|r| - 1])
    ensures r <= s
  {
    if s != [] && IsSpace(s[|s| - 1]) then RStrip(s[..|s| - 1]) else s
  }

  /** `s.strip()`. */
  function Strip(s: string): string {
    RStrip(LStrip(s))
  }

  /** A string with no whitespace at either end. */
  predicate Trimmed(s: string) {
    s == [] || (!IsSpace(s[0]) && !IsSpace(s[|s| - 1]))
  }

  /** Stripping gives a trimmed string, and keeps a trimmed string as it is,
      even after leading whitespace was added to it. */
  lemma {:induction false} StripTrimmed(ws: string, s: string)
    requires forall i :: 0 <= i < |ws| ==> IsSpace(ws[i])
    requires Trimmed(s)
    ensures Strip(ws + s) == s
  {
    LStripSpaces(ws, s);
  }

  lemma {:induction false} LStripSpaces(ws: string, s: string)
    requires forall i :: 0 <= i < |ws| ==> IsSpace(ws[i])
    requires s == [] || !IsSpace(s[0])
    ensures LStrip(ws + s) == s
  {
    if ws != [] {
      assert (ws + s)[1..] == ws[1..] + s;
      LStripSpaces(ws[1..], s);
    }
  }

  lemma {:induction false} StripIsTrimmed(s: string)
    ensures Trimmed(Strip(s))
  {
    var l := LStrip(s);
    var r := RStrip(l);
    assert r <= l;
    if r != [] {
      assert r[0] == l[0];
    }
  }

  /** `s.rstrip(c)`: every trailing `c` removed. */
  function RStripChar(s: string, c: char): (r: string)
    ensures r <= s
    ensures r == [] || r[|r| - 1] != c
    ensures forall i :: |r| <= i < |s| ==> s[i] == c
  {
    if s != [] && s[|s| - 1] == c then RStripChar(s[..|s| - 1], c) else s
  }

  /** `s.lower()` on ASCII letters. */
  function Lower(s: string): (r: string)
    ensures |r| == |s|
    ensures forall i :: 0 <= i < |s| ==> !('A' <= r[i] <= 'Z')
  {
    if s == [] then []
    else [if 'A' <= s[0] <= 'Z' then (s[0] as int + 32) as char else s[0]] + Lower(s[1..])
  }

  /** Index of the first `c` in `s`. */
  function IndexOf(s: string, c: char): (i: nat)
    requires c in s
    ensures i < |s| && s[i] == c && c !in s[..i]
  {
    if s[0] == c then 0 else 1 + IndexOf(s[1..], c)
  }

  /** `s.split(c, 1)` when `c` occurs: the text before the first `c` and
      the text after it. */
  function SplitOnce(s: string, c: char): (r: (string, string))
    requires c in s
    ensures c !in r.0 && r.0 + [c] + r.1 == s
  {
    var i := IndexOf(s, c);
    assert s[..i] + [c] + s[i + 1..] == s;
    (s[..i], s[i + 1..])
  }

  /** The first occurrence is found: a string split at a character that
      its first part lacks splits back into those parts. */
  lemma {:induction false} SplitOnceFirst(x: string, c: char, y: string)
    requires c !in x
    ensures c in x + [c] + y && SplitOnce(x + [c] + y, c) == (x, y)
  {
    IndexOfFirst(x, c, y);
    var s := x + [c] + y;
    assert s[..|x|] == x && s[|x| + 1..] == y;
  }

  lemma {:induction false} IndexOfFirst(x: string, c: char, y: string)
    requires c !in x
    ensures c in x + [c] + y && IndexOf(x + [c] + y, c) == |x|
  {
    var s := x + [c] + y;
    assert s[|x|] == c;
    if x != [] {
      assert s[1..] == x[1..] + [c] + y;
      IndexOfFirst(x[1..], c, y);
    }
  }

  /** The last piece of a split at a character that occurs is the text
      after the last occurrence. */
  lemma {:induction false} SplitLastPiece(s: string, c: char)
    requires c in s
    ensures EndsWith(s, [c] + Split(s, c)[|Split(s, c)| - 1])
  {
    var rest := Split(s[1..], c);
    if c in s[1..] {
      SplitLastPiece(s[1..], c);
      assert s[1..][|s[1..]| - |[c] + rest[|rest| - 1]|..] == s[|s| - |[c] + rest[|rest| - 1]|..];
    } else {
      SplitNoSep(s[1..], c);
      assert s == [c] + s[1..];
    }
  }

  /** Decimal text of a natural number, as Python's `str(n)`. */
  function Decimal(n: nat): (r: string)
    ensures |r| >= 1 && forall i :: 0 <= i < |r| ==> '0' <= r[i] <= '9'
  {
    if n < 10 then [('0' as int + n) as char]
    else Decimal(n / 10) + [('0' as int + n % 10) as char]
  }
}
