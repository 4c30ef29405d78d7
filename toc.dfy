/**
 * Table-of-contents numbering (`getToc` in src/view/widget/toc.jsx).
 *
 * The headings of an article arrive as `(level, id, text)` records in document order. Only the
 * `maxDepth` smallest distinct levels are kept; each kept heading's level is replaced by its
 * rank among them, a vector of counters numbers it, and it is stored in a nested object at the
 * path of its counters, e.g. `2.1.1`. The nested object is modelled by the set of its nodes
 * (paths from the root) and the map from a node's path to the fields set on it.
 */
module TableOfContents {
  import JsString
  import Seqs

  datatype Heading = Heading(level: int, id: string, text: string)

  /** The `id`, `text` and `index` fields a numbered node carries. */
  datatype Entry = Entry(id: string, text: string, index: string)

  /** The nested `toc` object: its nodes, and the fields set on the numbered ones. */
  datatype Toc = Toc(nodes: set<seq<nat>>, entries: map<seq<nat>, Entry>)

  predicate Ascending(s: seq<int>) {
    forall i, j :: 0 <= i < j < |s| ==> s[i] < s[j]
  }

  // ---------------------------------------------------------------------------------------
  // Levels.
  // ---------------------------------------------------------------------------------------

  /** Adds a level to an ascending list of distinct levels. */
  function InsertLevel(l: int, s: seq<int>): (r: seq<int>)
    requires Ascending(s)
    ensures Ascending(r)
    ensures forall x :: x in r <==> x == l || x in s
  {
    if |s| == 0 then [l]
    else if l < s[0] then [l] + s
    else if l == s[0] then s
    else
      var rest := InsertLevel(l, s[1..]);
      assert forall x :: x in s <==> x == s[0] || x in s[1..] by { Seqs.FirstSplit(s); }
      var r := [s[0]] + rest;
      assert Ascending(r) by {
        forall i, j | 0 <= i < j < |r| ensures r[i] < r[j] {
          if i == 0 {
            assert r[j] in rest;
          }
        }
      }
      r
  }

  /** `Array.from(new Set(levels)).sort((a, b) => a - b)`: every level once, ascending. */
  function Levels(hs: seq<Heading>): (r: seq<int>)
    ensures Ascending(r)
    ensures forall x :: x in r <==> exists k :: 0 <= k < |hs| && hs[k].level == x
  {
    if |hs| == 0 then []
    else
      var init := hs[..|hs| - 1];
      assert forall k :: 0 <= k < |init| ==> init[k] == hs[k];
      InsertLevel(hs[|hs| - 1].level, Levels(init))
  }

  /** The end index `slice(0, end)` uses on a list of length `len`. */
  function SliceEnd(len: nat, end: int): (r: nat)
    ensures r <= len
    ensures end >= 0 ==> r == if end < len then end else len
    ensures end < 0 ==> r == if len + end < 0 then 0 else len + end
  {
    if end < 0 then (if len + end < 0 then 0 else len + end)
    else if end < len then end else len
  }

  /** The levels kept: the first `maxDepth` of the ascending distinct levels. */
  function Kept(hs: seq<Heading>, maxDepth: int): seq<int> {
    var all := Levels(hs);
    all[..SliceEnd(|all|, maxDepth)]
  }

  /**
   * The kept levels are heading levels, ascending, as many as `maxDepth` allows, and each is
   * smaller than every level that is dropped.
   */
  lemma KeptSmallest(hs: seq<Heading>, maxDepth: int)
    ensures Ascending(Kept(hs, maxDepth))
    ensures forall x :: x in Kept(hs, maxDepth) ==> exists k :: 0 <= k < |hs| && hs[k].level == x
    ensures maxDepth >= 0 ==> |Kept(hs, maxDepth)| == if maxDepth < |Levels(hs)| then maxDepth else |Levels(hs)|
    ensures forall k, x :: 0 <= k < |hs| && x in Kept(hs, maxDepth) && hs[k].level !in Kept(hs, maxDepth) ==>
      x < hs[k].level
  {
    var all := Levels(hs);
    var kept := Kept(hs, maxDepth);
    assert forall x :: x in kept ==> x in all;
    forall k, x | 0 <= k < |hs| && x in kept && hs[k].level !in kept ensures x < hs[k].level {
      var l := hs[k].level;
      assert l in all;
      var i :| 0 <= i < |kept| && kept[i] == x;
      var j :| 0 <= j < |all| && all[j] == l;
      assert j >= |kept|;
      assert all[i] == x;
    }
  }

  /** `levels.indexOf(x)`: the first index holding `x`, or -1. */
  function IndexOf(s: seq<int>, x: int): (r: int)
    ensures r >= -1 && (r == -1 <==> x !in s)
    ensures r >= 0 ==> r < |s| && s[r] == x && x !in s[..r]
  {
    if |s| == 0 then -1
    else if s[0] == x then 0
    else
      var i := IndexOf(s[1..], x);
      if i == -1 then -1
      else
        assert s[..i + 1] == [s[0]] + s[1..][..i];
        i + 1
  }

  /** A kept level's depth is its rank: the kept levels before it are exactly the smaller ones. */
  lemma RankIsDepth(kept: seq<int>, l: int)
    requires Ascending(kept) && l in kept
    ensures forall x :: x in kept && x < l <==> x in kept[..IndexOf(kept, l)]
  {
    var n := IndexOf(kept, l);
    forall x ensures x in kept && x < l <==> x in kept[..n] {
      if x in kept && x < l {
        var i :| 0 <= i < |kept| && kept[i] == x;
        assert i < n;
        assert kept[..n][i] == x;
      }
      if x in kept[..n] {
        var i :| 0 <= i < n && kept[..n][i] == x;
        assert kept[i] == x;
      }
    }
  }

  // ---------------------------------------------------------------------------------------
  // Counters and paths.
  // ---------------------------------------------------------------------------------------

  function Zeros(n: nat): (r: seq<nat>)
    ensures |r| == n && forall i :: 0 <= i < n ==> r[i] == 0
  {
    seq(n, _ => 0)
  }

  /**
   * The counters after a heading of depth `n`: deeper counters reset to 0, zero ancestors
   * become 1, and the heading's own counter goes up by one.
   */
  function Bump(c: seq<nat>, n: nat): seq<nat>
    requires n < |c|
  {
    seq(|c|, i requires 0 <= i < |c| => if i > n then 0 else if i < n then (if c[i] == 0 then 1 else c[i]) else c[i] + 1)
  }

  /** The number of leading non-zero counters: the path of the heading numbered last. */
  function Frontier(c: seq<nat>): (m: nat)
    ensures m <= |c| && forall i :: 0 <= i < m ==> c[i] != 0
    ensures m < |c| ==> c[m] == 0
  {
    if |c| == 0 || c[0] == 0 then 0 else 1 + Frontier(c[1..])
  }

  /** Counters that are non-zero up to some depth and zero below it. */
  predicate Settled(c: seq<nat>) {
    forall i :: Frontier(c) <= i < |c| ==> c[i] == 0
  }

  /**
   * Document order of nodes: a node precedes its descendants, and siblings are ordered by
   * their keys.
   */
  predicate PathLess(a: seq<nat>, b: seq<nat>)
    decreases |a|
  {
    |b| > 0 && (|a| == 0 || a[0] < b[0] || (a[0] == b[0] && PathLess(a[1..], b[1..])))
  }

  lemma {:induction false} PathLessAt(a: seq<nat>, b: seq<nat>, i: nat)
    requires i < |a| && i < |b| && a[..i] == b[..i] && a[i] < b[i]
    ensures PathLess(a, b)
    decreases i
  {
    if i > 0 {
      assert a[0] == a[..i][0] == b[..i][0] == b[0];
      assert a[1..][..i - 1] == a[..i][1..] == b[..i][1..] == b[1..][..i - 1];
      PathLessAt(a[1..], b[1..], i - 1);
    }
  }

  lemma {:induction false} PathLessPrefix(a: seq<nat>, b: seq<nat>)
    requires |a| < |b| && a == b[..|a|]
    ensures PathLess(a, b)
    decreases |a|
  {
    if |a| > 0 {
      assert a[0] == b[0];
      assert a[1..] == b[1..][..|a| - 1];
      PathLessPrefix(a[1..], b[1..]);
    }
  }

  lemma {:induction false} PathLessTrans(a: seq<nat>, b: seq<nat>, c: seq<nat>)
    requires PathLess(a, b) && PathLess(b, c)
    ensures PathLess(a, c)
    decreases |a|
  {
    if |a| > 0 && a[0] == b[0] && b[0] == c[0] {
      assert |b| > 0;
      PathLessTrans(a[1..], b[1..], c[1..]);
    }
  }

  lemma {:induction false} PathLessIrreflexive(a: seq<nat>)
    ensures !PathLess(a, a)
    decreases |a|
  {
    if |a| > 0 {
      PathLessIrreflexive(a[1..]);
    }
  }

  /**
   * Numbering a heading moves the frontier to its depth and yields a path after the previous
   * one: counters only grow up to the heading's depth and its own counter strictly.
   */
  lemma BumpAfter(c: seq<nat>, n: nat)
    requires n < |c| && Settled(c)
    ensures Settled(Bump(c, n)) && Frontier(Bump(c, n)) == n + 1
    ensures PathLess(c[..Frontier(c)], Bump(c, n)[..n + 1])
  {
    BumpSettles(c, n);
    if n < Frontier(c) {
      BumpInside(c, n);
    } else {
      BumpBeyond(c, n);
    }
  }

  lemma BumpSettles(c: seq<nat>, n: nat)
    requires n < |c|
    ensures Settled(Bump(c, n)) && Frontier(Bump(c, n)) == n + 1
  {
    var c' := Bump(c, n);
    assert forall i :: 0 <= i <= n ==> c'[i] != 0;
    assert forall i :: n < i < |c| ==> c'[i] == 0;
    FrontierAt(c', n + 1);
  }

  /** A heading no deeper than the previous one: same ancestors, a greater own counter. */
  lemma BumpInside(c: seq<nat>, n: nat)
    requires n < Frontier(c)
    ensures PathLess(c[..Frontier(c)], Bump(c, n)[..n + 1])
  {
    var c' := Bump(c, n);
    var m := Frontier(c);
    assert forall i :: 0 <= i < n ==> c'[i] == c[i];
    assert c[..m][..n] == c'[..n + 1][..n];
    assert c'[n] == c[n] + 1;
    PathLessAt(c[..m], c'[..n + 1], n);
  }

  /** A heading deeper than the previous one: the previous path is an ancestor of the new one. */
  lemma BumpBeyond(c: seq<nat>, n: nat)
    requires Frontier(c) <= n < |c|
    ensures PathLess(c[..Frontier(c)], Bump(c, n)[..n + 1])
  {
    var c' := Bump(c, n);
    var m := Frontier(c);
    assert forall i :: 0 <= i < m ==> c'[i] == c[i];
    assert c[..m] == c'[..n + 1][..m];
    PathLessPrefix(c[..m], c'[..n + 1]);
  }

  lemma {:induction false} FrontierAt(c: seq<nat>, m: nat)
    requires m <= |c| && (forall i :: 0 <= i < m ==> c[i] != 0) && (forall i :: m <= i < |c| ==> c[i] == 0)
    ensures Frontier(c) == m
    decreases m
  {
    if m > 0 {
      FrontierAt(c[1..], m - 1);
    }
  }

  /** Every node on the way to `p`, `p` included: the objects the walk creates or enters. */
  function Prefixes(p: seq<nat>): set<seq<nat>> {
    set j | 1 <= j <= |p| :: p[..j]
  }

  /** `counters.slice(0, n + 1).join('.')`. */
  function IndexText(p: seq<nat>): string {
    JsString.Join(seq(|p|, i requires 0 <= i < |p| => JsString.NatToString(p[i])), ".")
  }

  // ---------------------------------------------------------------------------------------
  // The walk over the headings.
  // ---------------------------------------------------------------------------------------

  /** One heading of the `forEach`: skipped when its level is not kept, else numbered and stored. */
  function Visit(kept: seq<int>, c: seq<nat>, toc: Toc, h: Heading): (seq<nat>, Toc)
    requires |c| == |kept|
  {
    var n := IndexOf(kept, h.level);
    if n == -1 then (c, toc)
    else
      var c' := Bump(c, n);
      var p := c'[..n + 1];
      (c', Toc(toc.nodes + Prefixes(p), toc.entries[p := Entry(h.id, h.text, IndexText(p))]))
  }

  /** The counters and the object after the headings `hs`, from zero counters and `{}`. */
  function WalkAll(kept: seq<int>, hs: seq<Heading>): (r: (seq<nat>, Toc))
    ensures |r.0| == |kept|
  {
    if |hs| == 0 then (Zeros(|kept|), Toc({}, map[]))
    else
      var w := WalkAll(kept, hs[..|hs| - 1]);
      Visit(kept, w.0, w.1, hs[|hs| - 1])
  }

  /** `getToc(content, maxDepth)`, on the headings `tocObj` extracts from the content. */
  function TocOf(hs: seq<Heading>, maxDepth: int): Toc {
    WalkAll(Kept(hs, maxDepth), hs).1
  }

  /** The paths given to the kept headings, with those headings, in document order. */
  function Assigned(kept: seq<int>, hs: seq<Heading>): seq<(seq<nat>, Heading)> {
    if |hs| == 0 then []
    else
      var init := hs[..|hs| - 1];
      var h := hs[|hs| - 1];
      var c := WalkAll(kept, init).0;
      var n := IndexOf(kept, h.level);
      Assigned(kept, init) + (if n == -1 then [] else [(Bump(c, n)[..n + 1], h)])
  }

  /** The kept headings, in document order. */
  function KeptHeadings(kept: seq<int>, hs: seq<Heading>): seq<Heading> {
    if |hs| == 0 then []
    else KeptHeadings(kept, hs[..|hs| - 1]) + (if hs[|hs| - 1].level in kept then [hs[|hs| - 1]] else [])
  }

  /** The entry a numbered heading gets. */
  function EntryAt(a: (seq<nat>, Heading)): Entry {
    Entry(a.1.id, a.1.text, IndexText(a.0))
  }

  /** The paths, in document order, go strictly forward. */
  ghost predicate Ordered(a: seq<(seq<nat>, Heading)>) {
    forall i, j :: 0 <= i < j < |a| ==> PathLess(a[i].0, a[j].0)
  }

  /** The counters hold the last path given out, zeros below it. */
  ghost predicate Tracks(c: seq<nat>, a: seq<(seq<nat>, Heading)>) {
    Settled(c) && if |a| == 0 then Frontier(c) == 0 else a[|a| - 1].0 == c[..Frontier(c)]
  }

  /** The paths the walk gives out go strictly forward, and the counters track the last one. */
  lemma {:induction false} WalkOrdered(kept: seq<int>, hs: seq<Heading>)
    ensures Tracks(WalkAll(kept, hs).0, Assigned(kept, hs))
    ensures Ordered(Assigned(kept, hs))
  {
    if |hs| == 0 {
      FrontierAt(Zeros(|kept|), 0);
    } else {
      var init := hs[..|hs| - 1];
      var h := hs[|hs| - 1];
      WalkOrdered(kept, init);
      var c := WalkAll(kept, init).0;
      var a := Assigned(kept, init);
      var n := IndexOf(kept, h.level);
      if n != -1 {
        var p := Bump(c, n)[..n + 1];
        assert WalkAll(kept, hs).0 == Bump(c, n);
        assert Assigned(kept, hs) == a + [(p, h)];
        TracksBump(c, a, n, h);
      } else {
        assert WalkAll(kept, hs).0 == c;
        assert Assigned(kept, hs) == a;
      }
    }
  }

  /** Numbering one more heading keeps the paths ordered and the counters tracking the last one. */
  lemma TracksBump(c: seq<nat>, a: seq<(seq<nat>, Heading)>, n: nat, h: Heading)
    requires Tracks(c, a) && Ordered(a) && n < |c|
    ensures var x := (Bump(c, n)[..n + 1], h);
      Tracks(Bump(c, n), a + [x]) && Ordered(a + [x])
  {
    var x := (Bump(c, n)[..n + 1], h);
    BumpAfter(c, n);
    OrderedAppend(a, x);
    assert (a + [x])[|a|] == x;
  }

  /** A path after the last one keeps the list ordered. */
  lemma OrderedAppend(a: seq<(seq<nat>, Heading)>, x: (seq<nat>, Heading))
    requires Ordered(a) && (|a| > 0 ==> PathLess(a[|a| - 1].0, x.0))
    ensures Ordered(a + [x])
  {
    var b := a + [x];
    forall i, j | 0 <= i < j < |b| ensures PathLess(b[i].0, b[j].0) {
      if j == |a| {
        assert b[i] == a[i] && b[j] == x;
        if i < |a| - 1 {
          PathLessTrans(a[i].0, a[|a| - 1].0, x.0);
        }
      } else {
        assert b[i] == a[i] && b[j] == a[j];
      }
    }
  }

  /** The headings that get paths are the kept headings, in document order. */
  lemma {:induction false} WalkHeadings(kept: seq<int>, hs: seq<Heading>)
    ensures |Assigned(kept, hs)| == |KeptHeadings(kept, hs)|
    ensures forall i :: 0 <= i < |Assigned(kept, hs)| ==> Assigned(kept, hs)[i].1 == KeptHeadings(kept, hs)[i]
  {
    if |hs| > 0 {
      WalkHeadings(kept, hs[..|hs| - 1]);
    }
  }

  /**
   * Each kept heading's fields sit at its own path, and nothing else is numbered: since paths
   * go strictly forward, no heading overwrites an earlier one's fields.
   */
  lemma {:induction false} WalkEntries(kept: seq<int>, hs: seq<Heading>)
    ensures Stored(Assigned(kept, hs), WalkAll(kept, hs).1.entries)
  {
    if |hs| > 0 {
      var init := hs[..|hs| - 1];
      var h := hs[|hs| - 1];
      WalkEntries(kept, init);
      WalkOrdered(kept, hs);
      var a := Assigned(kept, init);
      var n := IndexOf(kept, h.level);
      if n != -1 {
        var c := WalkAll(kept, init).0;
        var p := Bump(c, n)[..n + 1];
        var a' := a + [(p, h)];
        assert Assigned(kept, hs) == a';
        OrderedFresh(a, (p, h));
        assert WalkAll(kept, hs).1.entries == WalkAll(kept, init).1.entries[p := EntryAt((p, h))];
        StoredPut(a, WalkAll(kept, init).1.entries, (p, h));
      } else {
        assert Assigned(kept, hs) == a;
        assert WalkAll(kept, hs) == WalkAll(kept, init);
      }
    }
  }

  /** In an ordered list, the last path differs from every earlier one. */
  lemma OrderedFresh(a: seq<(seq<nat>, Heading)>, x: (seq<nat>, Heading))
    requires Ordered(a + [x])
    ensures forall i :: 0 <= i < |a| ==> a[i].0 != x.0
  {
    var b := a + [x];
    forall i | 0 <= i < |a| ensures a[i].0 != x.0 {
      assert b[i] == a[i] && b[|a|] == x;
      PathLessIrreflexive(x.0);
    }
  }

  /** Storing a heading at a path no earlier heading has keeps every field where it was. */
  lemma StoredPut(a: seq<(seq<nat>, Heading)>, e: map<seq<nat>, Entry>, x: (seq<nat>, Heading))
    requires Stored(a, e) && forall i :: 0 <= i < |a| ==> a[i].0 != x.0
    ensures Stored(a + [x], e[x.0 := EntryAt(x)])
  {
    var b := a + [x];
    var e' := e[x.0 := EntryAt(x)];
    forall i | 0 <= i < |b| ensures b[i].0 in e' && e'[b[i].0] == EntryAt(b[i]) {
      if i < |a| {
        assert b[i] == a[i];
      } else {
        assert b[i] == x;
      }
    }
    forall q | q in e' ensures exists i :: 0 <= i < |b| && b[i].0 == q {
      if q != x.0 {
        var i :| 0 <= i < |a| && a[i].0 == q;
        assert b[i] == a[i];
      } else {
        assert b[|a|] == x;
      }
    }
  }

  /** The fields stored are exactly those of the numbered headings, each at its path. */
  ghost predicate Stored(a: seq<(seq<nat>, Heading)>, e: map<seq<nat>, Entry>) {
    (forall i :: 0 <= i < |a| ==> a[i].0 in e && e[a[i].0] == EntryAt(a[i]))
    && (forall p :: p in e ==> exists i :: 0 <= i < |a| && a[i].0 == p)
  }

  /** The nodes of the object are the numbered paths and their ancestors. */
  lemma {:induction false} WalkNodes(kept: seq<int>, hs: seq<Heading>)
    ensures
      var a := Assigned(kept, hs);
      forall q :: q in WalkAll(kept, hs).1.nodes <==>
        exists i, j :: 0 <= i < |a| && 1 <= j <= |a[i].0| && q == a[i].0[..j]
  {
    if |hs| > 0 {
      var init := hs[..|hs| - 1];
      var h := hs[|hs| - 1];
      WalkNodes(kept, init);
      var w := WalkAll(kept, init);
      var a := Assigned(kept, init);
      var n := IndexOf(kept, h.level);
      if n != -1 {
        var p := Bump(w.0, n)[..n + 1];
        var a' := a + [(p, h)];
        assert Assigned(kept, hs) == a';
        var nodes := WalkAll(kept, hs).1.nodes;
        forall q | q in nodes ensures exists i, j :: 0 <= i < |a'| && 1 <= j <= |a'[i].0| && q == a'[i].0[..j] {
          if q !in w.1.nodes {
            var j :| 1 <= j <= |p| && q == p[..j];
            assert a'[|a|].0 == p;
          } else {
            var i, j :| 0 <= i < |a| && 1 <= j <= |a[i].0| && q == a[i].0[..j];
            assert a'[i] == a[i];
          }
        }
        forall q | exists i, j :: 0 <= i < |a'| && 1 <= j <= |a'[i].0| && q == a'[i].0[..j] ensures q in nodes {
          var i, j :| 0 <= i < |a'| && 1 <= j <= |a'[i].0| && q == a'[i].0[..j];
          if i < |a| {
            assert a'[i] == a[i];
          }
        }
      } else {
        assert Assigned(kept, hs) == a;
      }
    }
  }

  /** A list without headings gives the empty object. */
  lemma NoHeadings(maxDepth: int)
    ensures TocOf([], maxDepth) == Toc({}, map[])
  {
  }

  // ---------------------------------------------------------------------------------------
  // getToc: the loops.
  // ---------------------------------------------------------------------------------------

  /** The counter loop of one heading: deeper counters reset, zero ancestors set to 1, its own raised. */
  method BumpCounters(counters: array<nat>, n: nat)
    requires n < counters.Length
    modifies counters
    ensures counters[..] == Bump(old(counters[..]), n)
  {
    ghost var before := counters[..];
    for i := 0 to counters.Length
      invariant forall j :: 0 <= j < i ==> counters[j] == Bump(before, n)[j]
      invariant forall j :: i <= j < counters.Length ==> counters[j] == before[j]
    {
      if i > n {
        counters[i] := 0;
      } else if i < n {
        if counters[i] == 0 {
          counters[i] := 1;
        }
      } else {
        counters[i] := counters[i] + 1;
      }
    }
  }

  /** The node walk of one heading: every node on the way to `path` exists afterwards. */
  method AddNodes(nodes: set<seq<nat>>, path: seq<nat>) returns (r: set<seq<nat>>)
    ensures r == nodes + Prefixes(path)
  {
    r := nodes;
    for j := 0 to |path|
      invariant r == nodes + set d | 1 <= d <= j :: path[..d]
    {
      if path[..j + 1] !in r {
        r := r + {path[..j + 1]};
      }
    }
  }

  /** `getToc`: the `counters` array updated per heading, and the nested object filled in. */
  method GetToc(hs: seq<Heading>, maxDepth: int) returns (toc: Toc)
    ensures toc == TocOf(hs, maxDepth)
  {
    var levels := Kept(hs, maxDepth);
    var counters := new nat[|levels|](_ => 0);
    var nodes: set<seq<nat>> := {};
    var entries: map<seq<nat>, Entry> := map[];
    assert counters[..] == Zeros(|levels|);
    for k := 0 to |hs|
      invariant counters.Length == |levels|
      invariant (counters[..], Toc(nodes, entries)) == WalkAll(levels, hs[..k])
    {
      Seqs.PrefixGrow(hs, k);
      var h := hs[k];
      var n := IndexOf(levels, h.level);
      if n != -1 {
        BumpCounters(counters, n);
        var path := counters[..n + 1];
        nodes := AddNodes(nodes, path);
        entries := entries[path := Entry(h.id, h.text, IndexText(path))];
      }
    }
    Seqs.Whole(hs);
    toc := Toc(nodes, entries);
  }

  // ---------------------------------------------------------------------------------------
  // The numbering, on the source's examples.
  // ---------------------------------------------------------------------------------------

  /** Headings h3, h2, h1, h2, h3 (depths 2, 1, 0, 1, 2) are numbered 1.1.1, 1.2, 2, 2.1, 2.1.1. */
  lemma StartsDeep()
    ensures Bump([0, 0, 0], 2) == [1, 1, 1]
    ensures Bump([1, 1, 1], 1) == [1, 2, 0]
    ensures Bump([1, 2, 0], 0) == [2, 0, 0]
    ensures Bump([2, 0, 0], 1) == [2, 1, 0]
    ensures Bump([2, 1, 0], 2) == [2, 1, 1]
  {
  }

  /**
   * Well-nested headings h1, h2, h3, h3, h2, h3, h3, h1, h2, h2, h3, h3 keep the levels 1, 2 and 3
   * at depths 0, 1 and 2, and are numbered 1, 1.1, 1.1.1, 1.1.2, 1.2, 1.2.1, 1.2.2, 2, 2.1, 2.2,
   * 2.2.1, 2.2.2: each heading's path is the counters up to its depth.
   */
  lemma WellNested()
    ensures IndexOf([1, 2, 3], 1) == 0 && IndexOf([1, 2, 3], 2) == 1 && IndexOf([1, 2, 3], 3) == 2
    ensures Bump([0, 0, 0], 0) == [1, 0, 0] && Bump([1, 0, 0], 1) == [1, 1, 0]
    ensures Bump([1, 1, 0], 2) == [1, 1, 1] && Bump([1, 1, 1], 2) == [1, 1, 2]
    ensures Bump([1, 1, 2], 1) == [1, 2, 0] && Bump([1, 2, 0], 2) == [1, 2, 1]
    ensures Bump([1, 2, 1], 2) == [1, 2, 2] && Bump([1, 2, 2], 0) == [2, 0, 0]
    ensures Bump([2, 0, 0], 1) == [2, 1, 0] && Bump([2, 1, 0], 1) == [2, 2, 0]
    ensures Bump([2, 2, 0], 2) == [2, 2, 1] && Bump([2, 2, 1], 2) == [2, 2, 2]
  {
    assert [1, 2, 3][1..] == [2, 3];
    assert [2, 3][1..] == [3];
  }

  /**
   * Headings h2, h2, h4, h4, h4, h2 keep the levels 2 and 4, so h4 has depth 1, and they are
   * numbered 1, 2, 2.1, 2.2, 2.3, 3.
   */
  lemma DisjunctLevels()
    ensures IndexOf([2, 4], 2) == 0 && IndexOf([2, 4], 4) == 1
    ensures Bump([0, 0], 0) == [1, 0] && Bump([1, 0], 0) == [2, 0]
    ensures Bump([2, 0], 1) == [2, 1] && Bump([2, 1], 1) == [2, 2] && Bump([2, 2], 1) == [2, 3]
    ensures Bump([2, 3], 0) == [3, 0]
  {
    assert [2, 4][1..] == [4];
  }

  /** The index of a path is its counters, dot-separated. */
  lemma IndexOfPath(a: nat, b: nat, c: nat)
    ensures IndexText([a, b, c]) == JsString.NatToString(a) + "." + JsString.NatToString(b) + "." + JsString.NatToString(c)
  {
    var parts := seq(3, i requires 0 <= i < 3 => JsString.NatToString([a, b, c][i]));
    assert parts == [JsString.NatToString(a), JsString.NatToString(b), JsString.NatToString(c)];
    JsString.Join3(parts[0], parts[1], parts[2], ".");
  }
}
