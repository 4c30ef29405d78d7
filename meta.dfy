/**
 * The `<meta>` tag parser (src/view/misc/meta.jsx).
 *
 * Each string of the `meta` setting is split into properties on unescaped `;`, each property
 * into a name and a value on unescaped `=`, both trimmed and unquoted, and the pairs are folded
 * into one attribute object, later pairs winning.
 */
module Meta {
  import opened Wrappers
  import JsString
  import JsValue
  import Assoc
  import Seqs

  // ---------------------------------------------------------------------------------------
  // `split(str, /(?:[^\\sep]+|\\.)+/g)`.
  // ---------------------------------------------------------------------------------------

  /**
   * The length of the unit of the pattern at the start of `s`: one character other than a
   * backslash or the separator, or a backslash and the character after it (which `.` matches
   * unless it ends a line); 0 when no unit starts there.
   */
  function UnitLength(s: string, sep: char): (n: nat)
    ensures n <= |s| && n <= 2
  {
    if |s| == 0 then 0
    else if s[0] != '\\' && s[0] != sep then 1
    else if s[0] == '\\' && |s| >= 2 && !JsString.IsLineTerminator(s[1]) then 2
    else 0
  }

  /** The length of the longest match of the pattern at the start of `s`: units, as many as fit. */
  function RunLength(s: string, sep: char): (n: nat)
    ensures n <= |s|
    decreases |s|
  {
    var u := UnitLength(s, sep);
    if u == 0 then 0 else u + RunLength(s[u..], sep)
  }

  /** `regex.exec(str)` from `lastIndex` `from`: the first match at or after it, as `(start, end)`. */
  function Exec(s: string, sep: char, from: nat): (r: Option<(nat, nat)>)
    ensures r.Some? ==> from <= r.value.0 < r.value.1 <= |s|
    ensures r.Some? ==> r.value.1 == r.value.0 + RunLength(s[r.value.0..], sep)
    decreases |s| - from
  {
    if from >= |s| then None
    else if RunLength(s[from..], sep) > 0 then Some((from, from + RunLength(s[from..], sep)))
    else Exec(s, sep, from + 1)
  }

  /** The matches of the pattern in `s`, left to right: characters no unit starts at are skipped. */
  function Runs(s: string, sep: char): seq<string>
    decreases |s|
  {
    if |s| == 0 then []
    else
      var n := RunLength(s, sep);
      if n == 0 then Runs(s[1..], sep) else [s[..n]] + Runs(s[n..], sep)
  }

  /** A string the pattern's units make up exactly: no separator but one a backslash escapes. */
  predicate Escaped(r: string, sep: char)
    decreases |r|
  {
    var u := UnitLength(r, sep);
    |r| == 0 || (u > 0 && Escaped(r[u..], sep))
  }

  /** The loop of `split`, calling `exec` until it finds no more matches. */
  method Split(s: string, sep: char) returns (result: seq<string>)
    ensures result == Runs(s, sep)
  {
    result := [];
    var lastIndex: nat := 0;
    ExecRuns(s, sep, 0);
    while true
      invariant lastIndex <= |s|
      invariant result + Runs(s[lastIndex..], sep) == Runs(s, sep)
      decreases |s| - lastIndex
    {
      var matched := Exec(s, sep, lastIndex);
      if matched.None? {
        ExecRuns(s, sep, lastIndex);
        assert result + [] == result;
        return;
      }
      var (start, end) := matched.value;
      ExecRuns(s, sep, lastIndex);
      result := result + [s[start..end]];
      lastIndex := end;
    }
  }

  /** Scanning with `exec` from an index finds the first of the remaining matches. */
  lemma {:induction false} ExecRuns(s: string, sep: char, from: nat)
    requires from <= |s|
    ensures Runs(s[from..], sep) == match Exec(s, sep, from)
      case None => []
      case Some(m) => [s[m.0..m.1]] + Runs(s[m.1..], sep)
    decreases |s| - from
  {
    if from < |s| {
      var t := s[from..];
      var n := RunLength(t, sep);
      if n == 0 {
        Seqs.SuffixShrink(s, from);
        ExecRuns(s, sep, from + 1);
      } else {
        Seqs.SuffixSlices(s, from, n);
      }
    }
  }

  /** Every piece is a non-empty, whole sequence of units: escapes are never cut in two. */
  lemma {:induction false} RunsEscaped(s: string, sep: char)
    ensures forall r :: r in Runs(s, sep) ==> r != "" && Escaped(r, sep)
    decreases |s|
  {
    if |s| > 0 {
      var n := RunLength(s, sep);
      if n == 0 {
        RunsEscaped(s[1..], sep);
      } else {
        RunsEscaped(s[n..], sep);
        RunEscaped(s, sep);
      }
    }
  }

  lemma {:induction false} RunEscaped(s: string, sep: char)
    ensures Escaped(s[..RunLength(s, sep)], sep)
    decreases |s|
  {
    var u := UnitLength(s, sep);
    if u > 0 {
      var n := RunLength(s, sep);
      RunEscaped(s[u..], sep);
      var r := s[..n];
      assert r[u..] == s[u..][..RunLength(s[u..], sep)];
      assert UnitLength(r, sep) == u by {
        assert r[0] == s[0];
        if u == 2 {
          assert r[1] == s[1];
        }
      }
    }
  }

  /** A piece is as long as it can be: what follows it starts no unit. */
  lemma RunsMaximal(s: string, sep: char)
    ensures UnitLength(s[RunLength(s, sep)..], sep) == 0
    decreases |s|
  {
    var u := UnitLength(s, sep);
    if u > 0 {
      RunsMaximal(s[u..], sep);
      assert s[u..][RunLength(s[u..], sep)..] == s[RunLength(s, sep)..];
    }
  }

  /** Text with neither backslash nor separator. */
  predicate Plain(a: string, sep: char) {
    '\\' !in a && sep !in a
  }

  lemma {:induction false} PlainRunLength(a: string, b: string, sep: char)
    requires Plain(a, sep)
    ensures RunLength(a + b, sep) == |a| + RunLength(b, sep)
    decreases |a|
  {
    if |a| > 0 {
      assert (a + b)[1..] == a[1..] + b;
      PlainRunLength(a[1..], b, sep);
    } else {
      assert a + b == b;
    }
  }

  /** Non-empty plain text is one piece. */
  lemma PlainOne(a: string, sep: char)
    requires a != "" && Plain(a, sep)
    ensures Runs(a, sep) == [a]
  {
    PlainRunLength(a, "", sep);
    assert a + "" == a;
    assert a[..|a|] == a && a[|a|..] == "";
  }

  /** A separator ends a piece, and the text after it is split on its own. */
  lemma Separated(a: string, b: string, sep: char)
    requires a != "" && Plain(a, sep) && sep != '\\'
    ensures Runs(a + [sep] + b, sep) == [a] + Runs(b, sep)
  {
    var t := [sep] + b;
    var s := a + t;
    assert a + [sep] + b == s;
    PlainRunLength(a, t, sep);
    assert UnitLength(t, sep) == 0;
    assert RunLength(s, sep) == |a|;
    assert s[..|a|] == a;
    assert s[|a|..] == t;
    SkipSeparator(b, sep);
  }

  /** An empty segment yields nothing: a separator where a piece could start is skipped. */
  lemma SkipSeparator(b: string, sep: char)
    requires sep != '\\'
    ensures Runs([sep] + b, sep) == Runs(b, sep)
  {
    assert ([sep] + b)[1..] == b;
  }

  /** An escaped separator stays inside its piece, backslash included. */
  lemma EscapedSeparator(a: string, b: string, sep: char)
    requires Plain(a, sep) && Plain(b, sep) && sep != '\\' && !JsString.IsLineTerminator(sep)
    ensures Runs(a + ['\\', sep] + b, sep) == [a + ['\\', sep] + b]
  {
    var t := ['\\', sep] + b;
    var s := a + t;
    assert a + ['\\', sep] + b == s;
    PlainRunLength(a, t, sep);
    PlainRunLength(b, "", sep);
    assert b + "" == b;
    assert t[2..] == b;
    assert UnitLength(t, sep) == 2;
    assert RunLength(t, sep) == 2 + |b|;
    assert RunLength(s, sep) == |s|;
    assert s[..|s|] == s && s[|s|..] == "";
  }

  // ---------------------------------------------------------------------------------------
  // `trim`.
  // ---------------------------------------------------------------------------------------

  /** `.replace(/^q(.*)q$/, '$1')`: one pair of surrounding quotes removed, if nothing ends a line. */
  function Unquote(s: string, q: char): (r: string)
    ensures r == s || (|s| >= 2 && s[0] == q && s[|s| - 1] == q && r == s[1..|s| - 1])
  {
    if |s| >= 2 && s[0] == q && s[|s| - 1] == q && forall i :: 1 <= i < |s| - 1 ==> !JsString.IsLineTerminator(s[i])
    then s[1..|s| - 1]
    else s
  }

  /** `trim(str)`: white space off both ends, then one `"…"` pair, then one `'…'` pair. */
  function TrimValue(s: string): string {
    Unquote(Unquote(JsString.Trim(s), '"'), '\'')
  }

  /** Text that needs no trimming or unquoting. */
  predicate Bare(v: string) {
    (|v| > 0 ==> !JsString.IsWhitespace(v[0]) && !JsString.IsWhitespace(v[|v| - 1]))
    && '"' !in v && '\'' !in v
  }

  /** A bare text is its own trim. */
  lemma TrimBare(v: string)
    requires Bare(v)
    ensures TrimValue(v) == v
  {
    JsString.TrimUnchanged(v);
  }

  /** Text on one line. */
  predicate OneLine(v: string) {
    forall i :: 0 <= i < |v| ==> !JsString.IsLineTerminator(v[i])
  }

  /** Double quotes around a bare one-line text are removed. */
  lemma TrimDoubleQuoted(v: string)
    requires Bare(v) && OneLine(v)
    ensures TrimValue("\"" + v + "\"") == v
  {
    var d := "\"" + v + "\"";
    assert |d| == |v| + 2 && d[0] == '"' && d[|d| - 1] == '"';
    JsString.TrimUnchanged(d);
    Inside(d, v);
  }

  /** The inside of a quoted one-line text is that text, on one line. */
  lemma Inside(d: string, v: string)
    requires |d| == |v| + 2 && OneLine(v)
    requires forall i :: 0 <= i < |v| ==> d[i + 1] == v[i]
    ensures d[1..|d| - 1] == v
    ensures forall i :: 1 <= i < |d| - 1 ==> !JsString.IsLineTerminator(d[i])
  {
    assert forall i :: 1 <= i < |d| - 1 ==> d[i] == v[i - 1];
  }

  /** Single quotes around a bare one-line text are removed. */
  lemma TrimSingleQuoted(v: string)
    requires Bare(v) && OneLine(v)
    ensures TrimValue("'" + v + "'") == v
  {
    var q := "'" + v + "'";
    assert |q| == |v| + 2 && q[0] == '\'' && q[|q| - 1] == '\'';
    JsString.TrimUnchanged(q);
    assert Unquote(q, '"') == q;
    Inside(q, v);
  }

  // ---------------------------------------------------------------------------------------
  // The pipeline of `render`.
  // ---------------------------------------------------------------------------------------

  /** One property: its name and value, or none when it has fewer than two pieces. */
  function Property(p: string): (r: Option<(string, string)>)
    ensures r.None? <==> |Runs(p, '=')| < 2
  {
    var pieces := Runs(p, '=');
    if |pieces| < 2 then None else Some((TrimValue(pieces[0]), TrimValue(pieces[1])))
  }

  /** `Object.assign` of the present properties onto `{}`, in order. */
  function Fold(props: seq<Option<(string, string)>>): seq<(string, string)> {
    if |props| == 0 then []
    else
      var acc := Fold(props[..|props| - 1]);
      var p := props[|props| - 1];
      if p.None? then acc else Assoc.Put(acc, p.value.0, p.value.1)
  }

  /** The value of the last present property named `k`. */
  function LastNamed(props: seq<Option<(string, string)>>, k: string): Option<string> {
    if |props| == 0 then None
    else
      var p := props[|props| - 1];
      if p.Some? && p.value.0 == k then Some(p.value.1) else LastNamed(props[..|props| - 1], k)
  }

  /** Among properties with the same name the later one wins, and absent ones count for nothing. */
  lemma {:induction false} LaterWins(props: seq<Option<(string, string)>>, k: string)
    ensures Assoc.Get(Fold(props), k) == LastNamed(props, k)
  {
    if |props| > 0 {
      LaterWins(props[..|props| - 1], k);
    }
  }

  /** The attributes of one `<meta>` tag. */
  function Attributes(entry: string): seq<(string, string)> {
    Fold(Properties(Runs(entry, ';')))
  }

  /** `.map(property => …)` over the pieces of an entry. */
  function Properties(ps: seq<string>): (r: seq<Option<(string, string)>>)
    ensures |r| == |ps| && forall i :: 0 <= i < |ps| ==> r[i] == Property(ps[i])
  {
    if |ps| == 0 then [] else [Property(ps[0])] + Properties(ps[1..])
  }

  /** The strings of a list, in order, and nothing else. */
  function Strings(vs: seq<JsValue.Value>): (r: seq<string>)
    ensures forall x :: x in r <==> JsValue.Str(x) in vs
  {
    if |vs| == 0 then []
    else
      var rest := Strings(vs[1..]);
      assert forall v :: v in vs <==> v == vs[0] || v in vs[1..] by { Seqs.FirstSplit(vs); }
      if vs[0].Str? then [vs[0].s] + rest else rest
  }

  /**
   * The entries of the `meta` setting: an absent setting is `[]`, a single non-array value a
   * one-element list, and only strings are kept.
   */
  function Entries(meta: JsValue.Value): (r: seq<string>)
    ensures meta.Undef? ==> r == []
    ensures meta.Str? ==> r == [meta.s]
    ensures !meta.Arr? && !meta.Str? ==> r == []
    ensures meta.Arr? ==> forall x :: x in r <==> JsValue.Str(x) in meta.items
  {
    if meta.Arr? then Strings(meta.items) else if meta.Str? then [meta.s] else []
  }

  /** `render()`: one attribute object per string entry. */
  function Tags(meta: JsValue.Value): (r: seq<seq<(string, string)>>)
    ensures |r| == |Entries(meta)|
    ensures forall i :: 0 <= i < |r| ==> r[i] == Attributes(Entries(meta)[i])
  {
    seq(|Entries(meta)|, i requires 0 <= i < |Entries(meta)| => Attributes(Entries(meta)[i]))
  }

  /**
   * The documented example, for any names and values of its shape: two `name="value"`
   * properties joined by `;` give the two pairs, quotes removed.
   */
  lemma TwoProperties(n1: string, v1: string, n2: string, v2: string)
    requires n1 != "" && n2 != "" && n1 != n2
    requires Bare(n1) && Bare(v1) && Bare(n2) && Bare(v2)
    requires Plain(n1, ';') && Plain(v1, ';') && Plain(n2, ';') && Plain(v2, ';')
    requires Plain(n1, '=') && Plain(v1, '=') && Plain(n2, '=') && Plain(v2, '=')
    requires OneLine(v1) && OneLine(v2)
    ensures Attributes(n1 + "=\"" + v1 + "\";" + n2 + "=\"" + v2 + "\"") == [(n1, v1), (n2, v2)]
  {
    var p1 := n1 + "=" + ("\"" + v1 + "\"");
    var p2 := n2 + "=" + ("\"" + v2 + "\"");
    var entry := n1 + "=\"" + v1 + "\";" + n2 + "=\"" + v2 + "\"";
    assert Runs(entry, ';') == [p1, p2] by { TwoPieces(n1, v1, n2, v2); }
    assert Properties([p1, p2]) == [Some((n1, v1)), Some((n2, v2))] by {
      PropertyOf(n1, v1);
      PropertyOf(n2, v2);
    }
    FoldTwo(n1, v1, n2, v2);
  }

  /** The documented entry splits into its two properties. */
  lemma TwoPieces(n1: string, v1: string, n2: string, v2: string)
    requires n1 != "" && n2 != ""
    requires Plain(n1, ';') && Plain(v1, ';') && Plain(n2, ';') && Plain(v2, ';')
    ensures Runs(n1 + "=\"" + v1 + "\";" + n2 + "=\"" + v2 + "\"", ';')
      == [n1 + "=" + ("\"" + v1 + "\""), n2 + "=" + ("\"" + v2 + "\"")]
  {
    var p1 := n1 + "=" + ("\"" + v1 + "\"");
    var p2 := n2 + "=" + ("\"" + v2 + "\"");
    EntryShape(n1, v1, n2, v2);
    PlainProperty(n1, v1, ';');
    PlainProperty(n2, v2, ';');
    Separated(p1, p2, ';');
    PlainOne(p2, ';');
    assert [p1] + [p2] == [p1, p2];
  }

  /** A property `name="value"` of plain parts has neither a backslash nor the separator. */
  lemma PlainProperty(n: string, v: string, sep: char)
    requires Plain(n, sep) && Plain(v, sep) && sep != '=' && sep != '"' && sep != '\\'
    ensures Plain(n + "=" + ("\"" + v + "\""), sep)
  {
    var q := "\"" + v + "\"";
    assert forall c :: c in q ==> c == '"' || c in v;
    assert forall c :: c in n + "=" + q ==> c in n || c == '=' || c in q;
  }

  /** The documented entry is its two properties with a `;` between them. */
  lemma EntryShape(n1: string, v1: string, n2: string, v2: string)
    ensures n1 + "=\"" + v1 + "\";" + n2 + "=\"" + v2 + "\""
      == (n1 + "=" + ("\"" + v1 + "\"")) + [';'] + (n2 + "=" + ("\"" + v2 + "\""))
  {
  }

  /** Two properties with different names give both pairs, in order. */
  lemma FoldTwo(n1: string, v1: string, n2: string, v2: string)
    requires n1 != n2
    ensures Fold([Some((n1, v1)), Some((n2, v2))]) == [(n1, v1), (n2, v2)]
  {
    var one: seq<Option<(string, string)>> := [Some((n1, v1))];
    var props := one + [Some((n2, v2))];
    assert props[..1] == one;
    assert one[..0] == [];
    Assoc.PutFresh([], n1, v1);
    assert Fold(one) == [(n1, v1)];
    assert Assoc.Keys([(n1, v1)]) == [n1];
    Assoc.PutFresh([(n1, v1)], n2, v2);
    assert Fold(props) == Assoc.Put([(n1, v1)], n2, v2);
  }

  /** A property `name="value"` of plain text is that name and value. */
  lemma PropertyOf(n: string, v: string)
    requires n != "" && Bare(n) && Bare(v) && Plain(n, '=') && Plain(v, '=')
    requires OneLine(v)
    ensures Property(n + "=" + ("\"" + v + "\"")) == Some((n, v))
  {
    var q := "\"" + v + "\"";
    assert Plain(q, '=');
    assert n + "=" + q == n + ['='] + q;
    Separated(n, q, '=');
    PlainOne(q, '=');
    TrimBare(n);
    TrimDoubleQuoted(v);
  }
}
