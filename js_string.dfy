/**
 * The few JavaScript string operations that the theme's logic relies on: number formatting,
 * `String.prototype.trim`, `split` with a one-character separator, `split(/\s+/)`,
 * `Array.prototype.join`, ASCII lower-casing and `indexOf(...) > -1`.
 */
module JsString {
  import opened Wrappers
  import Seqs

  predicate IsDigit(c: char) {
    '0' <= c <= '9'
  }

  predicate AllDigits(s: string) {
    forall i :: 0 <= i < |s| ==> IsDigit(s[i])
  }

  function DigitChar(d: nat): (c: char)
    requires d < 10
    ensures IsDigit(c)
  {
    ('0' as int + d) as char
  }

  function DigitValue(c: char): (d: nat)
    requires IsDigit(c)
    ensures d < 10 && DigitChar(d) == c
  {
    c as int - '0' as int
  }

  /** Decimal rendering of a non-negative integer, as `String(n)` produces it. */
  function NatToString(n: nat): (s: string)
    ensures |s| >= 1 && AllDigits(s)
    ensures (|s| == 1) == (n < 10)
    ensures |s| > 1 ==> s[0] != '0'
  {
    if n < 10 then [DigitChar(n)] else NatToString(n / 10) + [DigitChar(n % 10)]
  }

  /**
   * Reads a decimal numeral as `String(n)` writes it: digits only, and no leading zero unless
   * the numeral is `0`; anything else is not a numeral.
   */
  function ReadNumeral(p: string): (r: Option<nat>)
    decreases |p|
  {
    if |p| == 0 || !IsDigit(p[|p| - 1]) then None
    else if |p| == 1 then Some(DigitValue(p[0]))
    else if p[0] == '0' then None
    else
      match ReadNumeral(p[..|p| - 1])
      case None => None
      case Some(n) => Some(10 * n + DigitValue(p[|p| - 1]))
  }

  /** A numeral reads as the number whose rendering it is. */
  lemma {:induction false} ReadNumeralText(p: string)
    requires ReadNumeral(p).Some?
    ensures NatToString(ReadNumeral(p).value) == p
    decreases |p|
  {
    var n := ReadNumeral(p).value;
    if |p| > 1 {
      var q := p[..|p| - 1];
      ReadNumeralText(q);
      var m := ReadNumeral(q).value;
      assert q[0] == p[0];
      assert m != 0 by {
        assert NatToString(m)[0] != '0';
      }
      assert n / 10 == m && n % 10 == DigitValue(p[|p| - 1]);
      assert p == q + [p[|p| - 1]];
    }
  }

  /** Rendering a number and reading it back gives the number: the rendering loses nothing. */
  lemma {:induction false} ReadNumeralOfText(n: nat)
    ensures ReadNumeral(NatToString(n)) == Some(n)
  {
    var s := NatToString(n);
    if n >= 10 {
      ReadNumeralOfText(n / 10);
      assert s[..|s| - 1] == NatToString(n / 10);
    }
  }

  /** Two different numbers never render alike. */
  lemma NatToStringInjective(m: nat, n: nat)
    requires NatToString(m) == NatToString(n)
    ensures m == n
  {
    ReadNumeralOfText(m);
    ReadNumeralOfText(n);
  }

  /** Decimal rendering of an integer, with a leading minus sign when negative. */
  function IntToString(i: int): string {
    if i < 0 then "-" + NatToString(-i) else NatToString(i)
  }

  predicate IsLineTerminator(c: char) {
    c == '\n' || c == '\r' || c == '\U{2028}' || c == '\U{2029}'
  }

  /** The characters that `trim` removes and that `\s` matches in a JavaScript regular expression. */
  predicate IsWhitespace(c: char) {
    || c == '\t' || c == '\U{000B}' || c == '\U{000C}' || c == ' ' || c == '\U{00A0}'
    || c == '\U{FEFF}' || c == '\U{1680}' || ('\U{2000}' <= c <= '\U{200A}')
    || c == '\U{202F}' || c == '\U{205F}' || c == '\U{3000}' || IsLineTerminator(c)
  }

  predicate AllWhitespace(s: string) {
    forall i :: 0 <= i < |s| ==> IsWhitespace(s[i])
  }

  /** The number of white-space characters `s` starts with. */
  function LeadingSpace(s: string): (n: nat)
    ensures n <= |s| && (forall k :: 0 <= k < n ==> IsWhitespace(s[k]))
    ensures n < |s| ==> !IsWhitespace(s[n])
  {
    if |s| > 0 && IsWhitespace(s[0]) then
      var n := 1 + LeadingSpace(s[1..]);
      assert forall k :: 1 <= k < n ==> s[k] == s[1..][k - 1];
      n
    else 0
  }

  /**
   * Where white space at the end of `s[lo..]` begins, given that `s[e..]` is white space: the
   * search goes backward from `e` and stops at `lo` or at a character that is not white space.
   */
  function TrailingSpace(s: string, lo: nat, e: nat): (r: nat)
    requires lo <= e <= |s| && forall k :: e <= k < |s| ==> IsWhitespace(s[k])
    ensures lo <= r <= e && (forall k :: r <= k < |s| ==> IsWhitespace(s[k]))
    ensures r > lo ==> !IsWhitespace(s[r - 1])
    decreases e
  {
    if e > lo && IsWhitespace(s[e - 1]) then TrailingSpace(s, lo, e - 1) else e
  }

  /** `s.trim()`: the longest infix of `s` that neither starts nor ends with white space. */
  function Trim(s: string): (r: string)
    ensures exists i :: 0 <= i <= i + |r| <= |s| && r == s[i..i + |r|]
                        && AllWhitespace(s[..i]) && AllWhitespace(s[i + |r|..])
    ensures |r| > 0 ==> !IsWhitespace(r[0]) && !IsWhitespace(r[|r| - 1])
    ensures r == "" <==> AllWhitespace(s)
  {
    var i := LeadingSpace(s);
    var e := TrailingSpace(s, i, |s|);
    TrimSlice(s, i, e);
    s[i..e]
  }

  /** The infix between leading and trailing white space has the shape `trim` promises. */
  lemma TrimSlice(s: string, i: nat, e: nat)
    requires i <= e <= |s|
    requires (forall k :: 0 <= k < i ==> IsWhitespace(s[k])) && (i < |s| ==> !IsWhitespace(s[i]))
    requires (forall k :: e <= k < |s| ==> IsWhitespace(s[k])) && (e > i ==> !IsWhitespace(s[e - 1]))
    ensures var r := s[i..e];
      && (exists j :: 0 <= j <= j + |r| <= |s| && r == s[j..j + |r|]
                      && AllWhitespace(s[..j]) && AllWhitespace(s[j + |r|..]))
      && (|r| > 0 ==> !IsWhitespace(r[0]) && !IsWhitespace(r[|r| - 1]))
      && (r == "" <==> AllWhitespace(s))
  {
    var r := s[i..e];
    assert AllWhitespace(s[..i]) && AllWhitespace(s[e..]);
    assert e == i + |r|;
    assert |r| > 0 ==> r[0] == s[i] && r[|r| - 1] == s[e - 1];
    assert r == "" ==> AllWhitespace(s) by {
      if r == "" { assert forall k :: 0 <= k < |s| ==> IsWhitespace(s[k]); }
    }
  }

  /** A string that neither starts nor ends with white space is its own trim. */
  lemma TrimUnchanged(s: string)
    requires |s| > 0 ==> !IsWhitespace(s[0]) && !IsWhitespace(s[|s| - 1])
    ensures Trim(s) == s
  {
    Seqs.Whole(s);
  }

  /** `parts.join(sep)`. */
  function Join(parts: seq<string>, sep: string): string {
    if |parts| == 0 then ""
    else if |parts| == 1 then parts[0]
    else parts[0] + sep + Join(parts[1..], sep)
  }

  lemma Join3(a: string, b: string, c: string, sep: string)
    ensures Join([a, b, c], sep) == a + sep + b + sep + c
  {
    var parts := [a, b, c];
    assert parts[1..] == [b, c] && parts[1..][1..] == [c];
    assert Join([c], sep) == c;
    assert Join([b, c], sep) == b + sep + c;
  }

  /** `s.split(sep)` for a one-character separator. */
  function Split(s: string, sep: char): (parts: seq<string>)
    ensures |parts| >= 1
    ensures Join(parts, [sep]) == s
    ensures forall i :: 0 <= i < |parts| ==> sep !in parts[i]
  {
    if |s| == 0 then [""]
    else
      var rest := Split(s[1..], sep);
      if s[0] == sep then
        assert s == [sep] + s[1..];
        [""] + rest
      else
        var parts := [[s[0]] + rest[0]] + rest[1..];
        assert Join(parts, [sep]) == s by {
          if |rest| > 1 {
            assert Join(rest, [sep]) == rest[0] + [sep] + Join(rest[1..], [sep]);
          }
        }
        parts
  }

  /** Splitting a joined list again gives the list back, when no part holds the separator. */
  lemma {:induction false} SplitJoin(parts: seq<string>, sep: char)
    requires |parts| >= 1
    requires forall i :: 0 <= i < |parts| ==> sep !in parts[i]
    ensures Split(Join(parts, [sep]), sep) == parts
  {
    if |parts| == 1 {
      SplitNoSeparator(parts[0], sep);
    } else {
      SplitJoin(parts[1..], sep);
      SplitPrefix(parts[0], Join(parts[1..], [sep]), sep);
    }
  }

  lemma {:induction false} SplitNoSeparator(s: string, sep: char)
    requires sep !in s
    ensures Split(s, sep) == [s]
  {
    if |s| > 0 {
      SplitNoSeparator(s[1..], sep);
    }
  }

  lemma {:induction false} SplitPrefix(a: string, b: string, sep: char)
    requires sep !in a
    ensures Split(a + [sep] + b, sep) == [a] + Split(b, sep)
  {
    if |a| == 0 {
      assert a + [sep] + b == [sep] + b;
      assert ([sep] + b)[1..] == b;
    } else {
      SplitPrefix(a[1..], b, sep);
      assert (a + [sep] + b)[0] == a[0] && a[0] != sep;
      assert (a + [sep] + b)[1..] == a[1..] + [sep] + b;
      assert [a[0]] + a[1..] == a;
    }
  }

  /** `s.split(/\s+/)`: the pieces between maximal runs of white space (possibly empty at the ends). */
  function SplitWhitespace(s: string): (parts: seq<string>)
    ensures |parts| >= 1
    ensures forall i :: 0 <= i < |parts| ==> forall k :: 0 <= k < |parts[i]| ==> !IsWhitespace(parts[i][k])
    decreases |s|, 0
  {
    if |s| == 0 then [""]
    else if IsWhitespace(s[0]) then
      var rest := SkipWhitespace(s);
      [""] + SplitWhitespaceTail(rest)
    else
      var rest := SplitWhitespace(s[1..]);
      [[s[0]] + rest[0]] + rest[1..]
  }

  /** The pieces of `s` after a run of white space has been consumed: a run at the very end leaves one empty piece. */
  function SplitWhitespaceTail(s: string): (parts: seq<string>)
    ensures |parts| >= 1
    ensures forall i :: 0 <= i < |parts| ==> forall k :: 0 <= k < |parts[i]| ==> !IsWhitespace(parts[i][k])
    decreases |s|, 1
  {
    if |s| == 0 then [""] else SplitWhitespace(s)
  }

  function SkipWhitespace(s: string): (r: string)
    ensures |r| <= |s| && r == s[|s| - |r|..]
    ensures |r| > 0 ==> !IsWhitespace(r[0])
  {
    if |s| > 0 && IsWhitespace(s[0]) then SkipWhitespace(s[1..]) else s
  }

  /** Text without white space. */
  predicate NoWhitespace(w: string) {
    forall i :: 0 <= i < |w| ==> !IsWhitespace(w[i])
  }

  lemma {:induction false} SplitWhitespaceWord(w: string)
    requires NoWhitespace(w)
    ensures SplitWhitespace(w) == [w]
  {
    if |w| > 0 {
      SplitWhitespaceWord(w[1..]);
      assert [w[0]] + w[1..] == w;
    }
  }

  /** A word, one space and more text: the word is the first piece. */
  lemma {:induction false} SplitWhitespaceSpace(w: string, t: string)
    requires NoWhitespace(w) && |t| > 0 && !IsWhitespace(t[0])
    ensures SplitWhitespace(w + [' '] + t) == [w] + SplitWhitespace(t)
  {
    var s := w + [' '] + t;
    if |w| == 0 {
      assert s == [' '] + t;
      assert s[1..] == t;
      assert SkipWhitespace(s) == t;
    } else {
      assert s[0] == w[0] && s[1..] == w[1..] + [' '] + t;
      assert NoWhitespace(w[1..]) by { assert forall i :: 0 <= i < |w| - 1 ==> w[1..][i] == w[i + 1]; }
      SplitWhitespaceSpace(w[1..], t);
      var rest := SplitWhitespace(s[1..]);
      assert rest[0] == w[1..] && rest[1..] == SplitWhitespace(t);
      assert [w[0]] + w[1..] == w;
    }
  }

  /** Words joined by single spaces are split back into the same words. */
  lemma {:induction false} SplitWhitespaceJoin(words: seq<string>)
    requires |words| >= 1
    requires forall i :: 0 <= i < |words| ==> |words[i]| > 0 && NoWhitespace(words[i])
    ensures SplitWhitespace(Join(words, " ")) == words
  {
    if |words| == 1 {
      SplitWhitespaceWord(words[0]);
    } else {
      var tail := words[1..];
      var rest := Join(tail, " ");
      assert forall i :: 0 <= i < |tail| ==> tail[i] == words[i + 1];
      SplitWhitespaceJoin(tail);
      JoinFirst(tail);
      assert rest[0] == tail[0][0];
      SplitWhitespaceSpace(words[0], rest);
      assert Join(words, " ") == words[0] + [' '] + rest;
      Seqs.FirstSplit(words);
    }
  }

  /** A join starts with the first part. */
  lemma {:induction false} JoinFirst(parts: seq<string>)
    requires |parts| >= 1
    ensures StartsWith(Join(parts, " "), parts[0])
  {
    if |parts| > 1 {
      assert Join(parts, " ") == parts[0] + (" " + Join(parts[1..], " "));
    }
  }

  function ToLowerAsciiChar(c: char): char {
    if 'A' <= c <= 'Z' then (c as int + 32) as char else c
  }

  /** `s.toLowerCase()`, restricted to the ASCII letters. */
  function ToLowerAscii(s: string): (r: string)
    ensures |r| == |s|
    ensures forall i :: 0 <= i < |s| ==> r[i] == ToLowerAsciiChar(s[i])
  {
    if |s| == 0 then "" else [ToLowerAsciiChar(s[0])] + ToLowerAscii(s[1..])
  }

  /** `s.indexOf(t) > -1`. */
  predicate Contains(s: string, t: string) {
    exists i :: 0 <= i <= |s| - |t| && OccursAt(s, t, i)
  }

  predicate OccursAt(s: string, t: string, i: int) {
    0 <= i <= |s| - |t| && s[i..i + |t|] == t
  }

  predicate StartsWith(s: string, prefix: string) {
    |prefix| <= |s| && s[..|prefix|] == prefix
  }
}
