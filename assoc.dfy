/**
 * A JavaScript object's own enumerable string-keyed properties, in insertion order, as an
 * association list. Reading a key finds its first entry; writing a key replaces its entry in
 * place or appends a new one at the end, so the insertion order of `Object.keys` is kept.
 */
module Assoc {
  import opened Wrappers
  import Seqs

  function Keys<V>(m: seq<(string, V)>): (ks: seq<string>)
    ensures |ks| == |m|
  {
    if |m| == 0 then [] else [m[0].0] + Keys(m[1..])
  }

  /** `obj[k]`, or `None` when `k` is not an own key. */
  function Get<V>(m: seq<(string, V)>, k: string): (r: Option<V>)
    ensures r.None? <==> k !in Keys(m)
    ensures r.Some? ==> (k, r.value) in m
  {
    if |m| == 0 then None
    else if m[0].0 == k then Some(m[0].1)
    else
      assert Keys(m) == [m[0].0] + Keys(m[1..]);
      Get(m[1..], k)
  }

  predicate Distinct(ks: seq<string>) {
    forall i, j :: 0 <= i < j < |ks| ==> ks[i] != ks[j]
  }

  /** What a JavaScript object always satisfies: no key occurs twice. */
  predicate UniqueKeys<V>(m: seq<(string, V)>) {
    Distinct(Keys(m))
  }

  lemma DistinctCons(k: string, ks: seq<string>)
    ensures Distinct([k] + ks) <==> k !in ks && Distinct(ks)
  {
    var s := [k] + ks;
    if k !in ks && Distinct(ks) {
      forall i, j | 0 <= i < j < |s| ensures s[i] != s[j] {
        if i > 0 {
          assert s[i] == ks[i - 1] && s[j] == ks[j - 1];
        } else {
          assert s[j] == ks[j - 1];
        }
      }
    }
    if Distinct(s) {
      forall i, j | 0 <= i < j < |ks| ensures ks[i] != ks[j] {
        assert s[i + 1] == ks[i] && s[j + 1] == ks[j];
      }
      forall j | 0 <= j < |ks| ensures ks[j] != k {
        assert s[0] == k && s[j + 1] == ks[j];
      }
    }
  }

  /** How reading and listing keys see one entry put in front of a list. */
  lemma Cons<V>(e: (string, V), rest: seq<(string, V)>)
    ensures ([e] + rest)[0] == e && ([e] + rest)[1..] == rest
    ensures Keys([e] + rest) == [e.0] + Keys(rest)
    ensures forall k :: Get([e] + rest, k) == if e.0 == k then Some(e.1) else Get(rest, k)
    ensures UniqueKeys([e] + rest) <==> e.0 !in Keys(rest) && UniqueKeys(rest)
  {
    assert ([e] + rest)[1..] == rest;
    DistinctCons(e.0, Keys(rest));
  }

  /** `obj[k] = v`. */
  function Put<V>(m: seq<(string, V)>, k: string, v: V): (r: seq<(string, V)>)
    ensures Get(r, k) == Some(v)
    ensures forall k' :: k' != k ==> Get(r, k') == Get(m, k')
    ensures k in Keys(m) ==> Keys(r) == Keys(m)
    ensures k !in Keys(m) ==> Keys(r) == Keys(m) + [k]
    ensures UniqueKeys(m) ==> UniqueKeys(r)
  {
    if |m| == 0 then
      Cons((k, v), m);
      [(k, v)]
    else
      Seqs.FirstSplit(m);
      Cons(m[0], m[1..]);
      if m[0].0 == k then
        Cons((k, v), m[1..]);
        [(k, v)] + m[1..]
      else
        var rest := Put(m[1..], k, v);
        Cons(m[0], rest);
        assert k in Keys(m) <==> k in Keys(m[1..]);
        Seqs.AppendAssoc([m[0].0], Keys(m[1..]), [k]);
        [m[0]] + rest
  }

  /** Writing a new key appends its entry. */
  lemma {:induction false} PutFresh<V>(m: seq<(string, V)>, k: string, v: V)
    requires k !in Keys(m)
    ensures Put(m, k, v) == m + [(k, v)]
  {
    if |m| > 0 {
      Seqs.FirstSplit(m);
      Cons(m[0], m[1..]);
      PutFresh(m[1..], k, v);
      assert [m[0]] + (m[1..] + [(k, v)]) == m + [(k, v)];
    }
  }

  /** `Object.assign(t, s)`: every entry of `s`, in order, written into `t`. */
  function Assign<V>(t: seq<(string, V)>, s: seq<(string, V)>): (r: seq<(string, V)>)
    ensures UniqueKeys(s) ==> forall k :: Get(r, k) == if k in Keys(s) then Get(s, k) else Get(t, k)
    ensures UniqueKeys(t) ==> UniqueKeys(r)
    ensures forall k :: k in Keys(r) <==> k in Keys(t) || k in Keys(s)
    decreases |s|
  {
    if |s| == 0 then t
    else
      var last := s[|s| - 1];
      var init := s[..|s| - 1];
      var r := Put(Assign(t, init), last.0, last.1);
      Seqs.LastSplit(s);
      KeysAppend(init, last);
      assert UniqueKeys(s) ==> forall k :: Get(r, k) == if k in Keys(s) then Get(s, k) else Get(t, k) by {
        if UniqueKeys(s) {
          UniqueAppend(init, last);
          forall k ensures Get(r, k) == if k in Keys(s) then Get(s, k) else Get(t, k) {
            GetAppend(init, last, k);
          }
        }
      }
      r
  }

  lemma {:induction false} KeysAppend<V>(m: seq<(string, V)>, e: (string, V))
    ensures Keys(m + [e]) == Keys(m) + [e.0]
  {
    if |m| > 0 {
      Seqs.AppendTail(m, e);
      KeysAppend(m[1..], e);
    }
  }

  lemma {:induction false} KeysConcat<V>(a: seq<(string, V)>, b: seq<(string, V)>)
    ensures Keys(a + b) == Keys(a) + Keys(b)
  {
    if |a| == 0 {
      assert a + b == b;
    } else {
      Seqs.ConcatTail(a, b);
      assert Keys(a + b) == [a[0].0] + Keys(a[1..] + b);
      assert Keys(a) == [a[0].0] + Keys(a[1..]);
      KeysConcat(a[1..], b);
    }
  }

  /** Writing the first of several fresh entries appends it, and the rest stay fresh. */
  lemma PutFirstFresh<V>(m: seq<(string, V)>, e: (string, V), rest: seq<(string, V)>)
    requires UniqueKeys(m + ([e] + rest))
    ensures Put(m, e.0, e.1) == m + [e]
    ensures m + ([e] + rest) == (m + [e]) + rest && UniqueKeys((m + [e]) + rest)
  {
    assert m + ([e] + rest) == (m + [e]) + rest;
    KeysConcat(m + [e], rest);
    DistinctConcat(Keys(m + [e]), Keys(rest));
    UniqueAppend(m, e);
    PutFresh(m, e.0, e.1);
  }

  /** No two entries with the same key. */
  lemma UniqueByEntries<V>(m: seq<(string, V)>)
    requires forall i, j :: 0 <= i < j < |m| ==> m[i].0 != m[j].0
    ensures UniqueKeys(m)
  {
    forall i | 0 <= i < |m| ensures Keys(m)[i] == m[i].0 {
      KeysAt(m, i);
    }
  }

  /** Both halves of a list without repeats are without repeats, and share nothing. */
  lemma DistinctConcat(x: seq<string>, y: seq<string>)
    requires Distinct(x + y)
    ensures Distinct(x) && Distinct(y)
    ensures forall k :: k in y ==> k !in x
  {
    var s := x + y;
    forall i, j | 0 <= i < j < |x| ensures x[i] != x[j] {
      assert s[i] == x[i] && s[j] == x[j];
    }
    forall i, j | 0 <= i < j < |y| ensures y[i] != y[j] {
      assert s[|x| + i] == y[i] && s[|x| + j] == y[j];
    }
    forall i, j | 0 <= i < |x| && 0 <= j < |y| ensures x[i] != y[j] {
      assert s[i] == x[i] && s[|x| + j] == y[j];
    }
  }

  lemma UniqueAppend<V>(m: seq<(string, V)>, e: (string, V))
    requires UniqueKeys(m + [e])
    ensures UniqueKeys(m) && e.0 !in Keys(m)
  {
    KeysAppend(m, e);
    var ks := Keys(m + [e]);
    assert Keys(m) == ks[..|m|];
    forall j | 0 <= j < |m| ensures Keys(m)[j] != e.0 {
      assert ks[j] == Keys(m)[j] && ks[|m|] == e.0;
    }
  }

  /** The keys of a prefix are the prefix of the keys. */
  lemma {:induction false} KeysPrefix<V>(m: seq<(string, V)>, i: nat)
    requires i <= |m|
    ensures Keys(m[..i]) == Keys(m)[..i]
  {
    if i > 0 {
      assert m[..i] == m[..i - 1] + [m[i - 1]];
      KeysAppend(m[..i - 1], m[i - 1]);
      KeysPrefix(m, i - 1);
      assert Keys(m)[..i] == Keys(m)[..i - 1] + [Keys(m)[i - 1]];
      KeysAt(m, i - 1);
    }
  }

  lemma {:induction false} KeysAt<V>(m: seq<(string, V)>, i: nat)
    requires i < |m|
    ensures Keys(m)[i] == m[i].0
  {
    if i > 0 {
      KeysAt(m[1..], i - 1);
    }
  }

  /** Reading a key of a list with one more entry at the end. */
  lemma {:induction false} GetAppend<V>(m: seq<(string, V)>, e: (string, V), k: string)
    ensures Get(m + [e], k) == if k in Keys(m) then Get(m, k) else if k == e.0 then Some(e.1) else None
  {
    if |m| > 0 {
      Seqs.AppendTail(m, e);
      assert Keys(m) == [m[0].0] + Keys(m[1..]);
      GetAppend(m[1..], e, k);
    }
  }

  /** `delete obj[k]`. */
  function Remove<V>(m: seq<(string, V)>, k: string): (r: seq<(string, V)>)
    ensures Get(r, k) == None
    ensures forall k' :: k' != k ==> Get(r, k') == Get(m, k')
    ensures forall k' :: k' in Keys(r) <==> k' in Keys(m) && k' != k
    ensures UniqueKeys(m) ==> UniqueKeys(r)
  {
    if |m| == 0 then []
    else
      Seqs.FirstSplit(m);
      Cons(m[0], m[1..]);
      var rest := Remove(m[1..], k);
      if m[0].0 == k then rest
      else
        Cons(m[0], rest);
        [m[0]] + rest
  }
}
