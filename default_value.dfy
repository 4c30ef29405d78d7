/**
 * The `DefaultValue` wrapper of src/core/schema.js: a default value together with a
 * description, which `flatten`, `merge` and `clone` manipulate and `toCommented` turns into a
 * plain value carrying comment markers for the YAML writer.
 *
 * A wrapper held inside another value (the `value` of a wrapper, an array element, an object
 * property) is a `DV` value; the wrapper being worked on is a `DefaultValue` object whose two
 * fields its methods update. The pure functions below say what each method computes.
 */
module DefaultValues {
  import opened Wrappers
  import opened JsString
  import opened JsValue
  import Assoc
  import Seqs

  /** The marker that prefixes the comment entries of the commented form. */
  const MAGIC: string := "c823d4d4"

  /**
   * The argument of `merge`: another wrapper, a plain object holding only a `description`
   * (as `getReferredDefaultValue` passes), or `undefined` (what a `getDefaultValue` call that
   * produced nothing hands on).
   */
  datatype Source = Wrapper(w: Default) | DescriptionOnly(description: Value) | Missing

  // ---------------------------------------------------------------- flatten

  /** What `flatten` leaves: nested wrappers unwrapped, keeping the innermost non-empty description. */
  function Flattened(d: Default): (r: Default)
    ensures !r.value.DV?
    ensures !d.value.DV? ==> r == d
    ensures Truthy(d.description) ==> Truthy(r.description)
  {
    match d.value
    case DV(inner) =>
      var f := Flattened(inner);
      Default(f.value, if Truthy(f.description) then f.description else d.description)
    case _ => d
  }

  /** The wrappers met going inwards from `d`, `d` first. */
  function Chain(d: Default): (c: seq<Default>)
    ensures |c| >= 1 && c[0] == d
    ensures forall i :: 0 <= i < |c| - 1 ==> c[i].value.DV? && c[i + 1] == c[i].value.d
    ensures !c[|c| - 1].value.DV?
  {
    if d.value.DV? then [d] + Chain(d.value.d) else [d]
  }

  /** The description of the innermost wrapper of `c` whose description is truthy, or `fallback`. */
  function InnermostDescription(c: seq<Default>, fallback: Value): Value {
    if |c| == 0 then fallback
    else InnermostDescription(c[1..], if Truthy(c[0].description) then c[0].description else fallback)
  }

  lemma {:induction false} InnermostDescriptionFallback(c: seq<Default>, a: Value, b: Value)
    ensures (if Truthy(InnermostDescription(c, a)) then InnermostDescription(c, a) else b)
         == InnermostDescription(c, if Truthy(a) then a else b)
  {
    if |c| > 0 {
      InnermostDescriptionFallback(c[1..], if Truthy(c[0].description) then c[0].description else a, b);
    }
  }

  /**
   * `flatten` leaves the value of the innermost wrapper, and the description of the innermost
   * wrapper that has a non-empty one (the outer description when none has).
   */
  lemma {:induction false} FlattenedIsInnermost(d: Default)
    ensures Flattened(d).value == Chain(d)[|Chain(d)| - 1].value
    ensures Flattened(d).description == InnermostDescription(Chain(d)[1..], d.description)
  {
    if d.value.DV? {
      var inner := d.value.d;
      FlattenedIsInnermost(inner);
      assert Chain(d)[1..] == Chain(inner);
      InnermostDescriptionFallback(Chain(inner)[1..], inner.description, d.description);
    }
  }

  /** Flattening twice is flattening once. */
  lemma FlattenedIdempotent(d: Default)
    ensures Flattened(Flattened(d)) == Flattened(d)
  {
  }

  // ---------------------------------------------------------------- merge

  /** The value `merge` leaves, for a flattened target value `tv` and a non-wrapper source value `sv`. */
  function MergedValue(tv: Value, sv: Value): (r: Value)
    requires !tv.DV? && !sv.DV?
    ensures tv.Arr? && sv.Arr? ==> r == Arr(tv.items + sv.items)
    ensures tv.Obj? && sv.Obj? ==> r.Obj?
    ensures tv.Obj? && sv.Obj? && Assoc.UniqueKeys(sv.entries) ==>
      forall k :: Assoc.Get(r.entries, k) ==
        if k in Assoc.Keys(sv.entries) then Assoc.Get(sv.entries, k) else Assoc.Get(tv.entries, k)
    ensures TypeOf(tv) != TypeOf(sv) ==> r == if tv.Undef? || tv.Null? then sv else tv
    ensures TypeOf(tv) == TypeOf(sv) && !tv.Arr? && !tv.Obj? ==> r == sv
  {
    if TypeOf(sv) == TypeOf(tv) then
      if tv.Arr? then Arr(tv.items + sv.items)
      else if tv.Obj? then Obj(Assoc.Assign(tv.entries, sv.entries))
      else sv
    else if tv.Undef? || tv.Null? then sv
    else tv
  }

  /** What `merge(src)` leaves in the target `t`; passing `undefined` throws. */
  function Merged(t: Default, src: Source): (r: Result<Default, Error>)
    ensures r.Failure? <==> src.Missing?
    ensures src.DescriptionOnly? ==> r.value.value == t.value
    ensures src.Wrapper? && src.w.value.Null? ==> r.value.value == t.value
    ensures src.Wrapper? && !src.w.value.Null? ==> !r.value.value.DV?
    ensures src.DescriptionOnly? ==>
      r.value.description == if Truthy(src.description) then src.description else t.description
    ensures src.Wrapper? && !src.w.value.DV? && Truthy(src.w.description) ==>
      r.value.description == src.w.description
    ensures src.Wrapper? && src.w.value.Null? && !Truthy(src.w.description) ==> r.value == t
  {
    match src
    case Missing => Failure(TypeError("Cannot convert undefined or null to object"))
    case DescriptionOnly(desc) =>
      Success(if Truthy(desc) then t.(description := desc) else t)
    case Wrapper(s0) =>
      if s0.value.Null? then
        Success(if Truthy(s0.description) then t.(description := s0.description) else t)
      else
        var f := Flattened(t);
        var s := Flattened(s0);
        var v := MergedValue(f.value, s.value);
        Success(Default(v, if Truthy(s.description) then s.description else f.description))
  }

  /** Merging a wrapper into a target holding a defined, non-null, unwrapped value: the merged value of the two. */
  lemma MergeIntoDefined(t: Default, w: Default)
    requires !t.value.DV? && !t.value.Undef? && !t.value.Null?
    ensures Merged(t, Wrapper(w)).Success?
    ensures Merged(t, Wrapper(w)).value.value == MergedValue(t.value, Flattened(w).value)
  {
  }

  /** Whether `v` is one of the primitive merge inputs: `null`, a boolean, a number or a string. */
  predicate IsPrimitive(v: Value) {
    v.Null? || v.Bool? || v.Num? || v.Str?
  }

  /** JavaScript's `typeof`, which calls `null` an object. */
  function TypeofOperator(v: Value): string {
    match v
    case Undef => "undefined"
    case Bool(_) => "boolean"
    case Num(_) => "number"
    case Str(_) => "string"
    case _ => "object"
  }

  /**
   * Merging one primitive default into another: the target takes the source value when both
   * have the same `typeof` or the target was `null`, and otherwise keeps its own.
   */
  lemma MergePrimitives(a: Value, b: Value)
    requires IsPrimitive(a) && IsPrimitive(b)
    ensures Merged(Default(a, Undef), Wrapper(Default(b, Undef))).value.value
         == if TypeofOperator(a) == TypeofOperator(b) || a.Null? then b else a
  {
  }

  /** Merging a wrapper whose value is itself a wrapper merges the inner wrapper, adopting its description. */
  lemma MergeNestedWrappers()
    ensures
      var a1 := [("a", Num(1))];
      var b2 := [("b", Num(2))];
      var c3 := [("c", Num(3))];
      var t0 := Default(DV(Default(Obj(a1), Undef)), Undef);
      var t1 := Merged(t0, Wrapper(Default(Obj(b2), Undef))).value;
      var t2 := Merged(t1, Wrapper(Default(DV(Default(Obj(c3), Str("child"))), Undef))).value;
      && t1.value == Obj(a1 + b2)
      && t2.value == Obj(a1 + b2 + c3) && t2.description == Str("child")
  {
    var a1 := [("a", Num(1))];
    var b2 := [("b", Num(2))];
    var c3 := [("c", Num(3))];
    var t0 := Default(DV(Default(Obj(a1), Undef)), Undef);
    assert Flattened(t0) == Default(Obj(a1), Undef);
    Assoc.PutFresh(a1, "b", Num(2));
    assert Assoc.Assign(a1, b2) == a1 + b2;
    var t1 := Default(Obj(a1 + b2), Undef);
    assert Merged(t0, Wrapper(Default(Obj(b2), Undef))).value == t1;
    var s0 := Default(DV(Default(Obj(c3), Str("child"))), Undef);
    assert Flattened(s0) == Default(Obj(c3), Str("child"));
    assert Assoc.Keys(a1 + b2) == ["a", "b"];
    Assoc.PutFresh(a1 + b2, "c", Num(3));
    assert Assoc.Assign(a1 + b2, c3) == a1 + b2 + c3;
  }

  // ---------------------------------------------------------------- toCommented

  /** The description lines of a wrapper, when it has a non-blank string description. */
  function DescriptionLines(description: Value): (lines: seq<string>)
    ensures |lines| == 0 <==> !description.Str? || Trim(description.s) == ""
  {
    if description.Str? && Trim(description.s) != "" then Split(description.s, '\n') else []
  }

  /** The marker entries of the array form: `MAGIC + i + ': ' + line` for each line. */
  function ArrayMarkers(lines: seq<string>): (r: seq<Value>)
    ensures |r| == |lines|
    ensures forall i :: 0 <= i < |lines| ==> r[i] == Str(MAGIC + NatToString(i) + ": " + lines[i])
  {
    seq(|lines|, i requires 0 <= i < |lines| => Str(MAGIC + NatToString(i) + ": " + lines[i]))
  }

  /** `[].concat(x)` seen from one argument: an array contributes its elements, anything else itself. */
  function Spread(v: Value): (r: seq<Value>)
    ensures v.Arr? ==> r == v.items
    ensures !v.Arr? ==> r == [v]
  {
    if v.Arr? then v.items else [v]
  }

  /**
   * `new DefaultValue(v).toCommented()`. The result depends on the wrapped value only, so it is
   * also what `toCommented` gives for any wrapper whose value is `v`.
   */
  function Commented(v: Value): (r: Value)
    ensures !(v.Arr? || v.Obj? || v.DV?) ==> r == v
    ensures v.Arr? ==> r.Arr?
    ensures v.Obj? ==> r.Obj?
    ensures v.DV? ==> r == Commented(v.d.value)
    decreases v, 2, 0
  {
    match v
    case Arr(items) => Arr(CommentedItems(v, 0))
    case Obj(entries) => Obj(CommentedEntries(v, 0, []))
    case DV(d) => Commented(d.value)
    case _ => v
  }

  /** What the `map` callback of `toCommentedArray` returns for one element. */
  function CommentedPiece(item: Value): (r: Value)
    ensures item.Obj? <==> r.Obj?
    ensures !item.Obj? ==> r.Arr?
    decreases item, 3, 0
  {
    match item
    case DV(d) =>
      var lines := DescriptionLines(d.description);
      if |lines| == 0 then Arr([Commented(d.value)])
      else Arr(ArrayMarkers(lines) + Spread(Commented(d.value)))
    case Arr(_) => Commented(item)
    case Obj(_) => Commented(item)
    case _ => Arr([item])
  }

  /** `toCommentedArray` from element `i` on: each callback result, spread by `[].concat(...)`. */
  function CommentedItems(v: Value, i: nat): (r: seq<Value>)
    requires v.Arr? && i <= |v.items|
    decreases v, 1, |v.items| - i
  {
    if i == |v.items| then [] else Spread(CommentedPiece(v.items[i])) + CommentedItems(v, i + 1)
  }

  /** The marker properties of the object form: `MAGIC + key + i` set to each line, in order. */
  function PutMarkers(acc: seq<(string, Value)>, key: string, lines: seq<string>, i: nat): (r: seq<(string, Value)>)
    requires i <= |lines|
    ensures forall k :: k in Assoc.Keys(acc) ==> k in Assoc.Keys(r)
    decreases |lines| - i
  {
    if i == |lines| then acc
    else PutMarkers(Assoc.Put(acc, MAGIC + key + NatToString(i), Str(lines[i])), key, lines, i + 1)
  }

  /** One iteration of the `for…in` loop of `toCommentedObject`: the entries written for one property. */
  function CommentedEntry(acc: seq<(string, Value)>, key: string, item: Value): (r: seq<(string, Value)>)
    ensures Assoc.Get(r, key) == Some(if item.DV? || item.Arr? || item.Obj? then Commented(item) else item)
    decreases item, 3, 0
  {
    match item
    case DV(d) => Assoc.Put(PutMarkers(acc, key, DescriptionLines(d.description), 0), key, Commented(d.value))
    case Arr(_) => Assoc.Put(acc, key, Commented(item))
    case Obj(_) => Assoc.Put(acc, key, Commented(item))
    case _ => Assoc.Put(acc, key, item)
  }

  /** `toCommentedObject` from property `i` on, with `acc` the entries written so far. */
  function CommentedEntries(v: Value, i: nat, acc: seq<(string, Value)>): (r: seq<(string, Value)>)
    requires v.Obj? && i <= |v.entries|
    decreases v, 1, |v.entries| - i
  {
    if i == |v.entries| then acc
    else
      var e := v.entries[i];
      CommentedEntries(v, i + 1, CommentedEntry(acc, e.0, e.1))
  }

  // ---------------------------------------------------------------- properties of toCommented

  /** A marker key is never the key of the property it describes. */
  lemma MarkerKeyDiffers(key: string, i: nat)
    ensures MAGIC + key + NatToString(i) != key
  {
    assert |MAGIC + key + NatToString(i)| > |key|;
  }

  lemma {:induction false} PutMarkersKeeps(acc: seq<(string, Value)>, key: string, lines: seq<string>, i: nat, k: string)
    requires i <= |lines|
    requires forall j :: i <= j < |lines| ==> MAGIC + key + NatToString(j) != k
    ensures Assoc.Get(PutMarkers(acc, key, lines, i), k) == Assoc.Get(acc, k)
    decreases |lines| - i
  {
    if i < |lines| {
      PutMarkersKeeps(Assoc.Put(acc, MAGIC + key + NatToString(i), Str(lines[i])), key, lines, i + 1, k);
    }
  }

  lemma {:induction false} PutMarkersWrites(acc: seq<(string, Value)>, key: string, lines: seq<string>, i: nat, j: nat)
    requires i <= j < |lines|
    ensures Assoc.Get(PutMarkers(acc, key, lines, i), MAGIC + key + NatToString(j)) == Some(Str(lines[j]))
    decreases |lines| - i
  {
    var acc' := Assoc.Put(acc, MAGIC + key + NatToString(i), Str(lines[i]));
    if i == j {
      forall j' | i + 1 <= j' < |lines| ensures MAGIC + key + NatToString(j') != MAGIC + key + NatToString(j) {
        if MAGIC + key + NatToString(j') == MAGIC + key + NatToString(j) {
          assert NatToString(j') == (MAGIC + key + NatToString(j'))[|MAGIC + key|..];
          NatToStringInjective(j', j);
        }
      }
      PutMarkersKeeps(acc', key, lines, i + 1, MAGIC + key + NatToString(j));
    } else {
      PutMarkersWrites(acc', key, lines, i + 1, j);
    }
  }

  /**
   * In the object form a described child leaves its commented value under its own key and
   * line `j` of its description under the marker key `MAGIC + key + j`.
   */
  lemma DescribedPropertyMarkers(acc: seq<(string, Value)>, key: string, d: Default, j: nat)
    requires j < |DescriptionLines(d.description)|
    ensures Assoc.Get(CommentedEntry(acc, key, DV(d)), key) == Some(Commented(d.value))
    ensures Assoc.Get(CommentedEntry(acc, key, DV(d)), MAGIC + key + NatToString(j))
         == Some(Str(DescriptionLines(d.description)[j]))
  {
    var lines := DescriptionLines(d.description);
    PutMarkersWrites(acc, key, lines, 0, j);
    MarkerKeyDiffers(key, j);
  }

  /** The marker properties of the object form for the lines of one description, in order. */
  function MarkerEntries(key: string, lines: seq<string>): (r: seq<(string, Value)>)
    ensures |r| == |lines|
    ensures forall j :: 0 <= j < |lines| ==> r[j] == (MAGIC + key + NatToString(j), Str(lines[j]))
  {
    seq(|lines|, j requires 0 <= j < |lines| => (MAGIC + key + NatToString(j), Str(lines[j])))
  }

  /** Fresh marker keys are appended, one line after the other. */
  lemma {:induction false} PutMarkersAppend(acc: seq<(string, Value)>, key: string, lines: seq<string>, i: nat)
    requires i <= |lines|
    requires Assoc.UniqueKeys(acc + MarkerEntries(key, lines)[i..])
    ensures PutMarkers(acc, key, lines, i) == acc + MarkerEntries(key, lines)[i..]
    decreases |lines| - i
  {
    var ms := MarkerEntries(key, lines);
    if i == |lines| {
      assert ms[i..] == [];
    } else {
      var e := ms[i];
      assert e == (MAGIC + key + NatToString(i), Str(lines[i]));
      Seqs.SuffixShrink(ms, i);
      Seqs.FirstSplit(ms[i..]);
      Assoc.PutFirstFresh(acc, e, ms[i + 1..]);
      PutMarkersAppend(acc + [e], key, lines, i + 1);
    }
  }

  /**
   * The entries one property contributes to the object form: the markers of its description
   * just before the property itself when it is described, the property alone otherwise.
   */
  function EntryPiece(key: string, item: Value): (r: seq<(string, Value)>)
    ensures |r| >= 1 && r[|r| - 1].0 == key
    ensures item.DV? ==> r[..|r| - 1] == MarkerEntries(key, DescriptionLines(item.d.description))
    ensures !item.DV? ==> |r| == 1
  {
    match item
    case DV(d) => MarkerEntries(key, DescriptionLines(d.description)) + [(key, Commented(d.value))]
    case Arr(_) => [(key, Commented(item))]
    case Obj(_) => [(key, Commented(item))]
    case _ => [(key, item)]
  }

  /** When none of its keys is taken, a property's entries are appended after those already written. */
  lemma CommentedEntryInOrder(acc: seq<(string, Value)>, key: string, item: Value)
    requires Assoc.UniqueKeys(acc + EntryPiece(key, item))
    ensures CommentedEntry(acc, key, item) == acc + EntryPiece(key, item)
  {
    match item
    case DV(d) =>
      var lines := DescriptionLines(d.description);
      var ms := MarkerEntries(key, lines);
      var e := (key, Commented(d.value));
      assert acc + EntryPiece(key, item) == (acc + ms) + [e];
      Assoc.UniqueAppend(acc + ms, e);
      assert ms[0..] == ms;
      PutMarkersAppend(acc, key, lines, 0);
      Assoc.PutFresh(acc + ms, key, Commented(d.value));
    case Arr(_) =>
      Assoc.UniqueAppend(acc, (key, Commented(item)));
      Assoc.PutFresh(acc, key, Commented(item));
    case Obj(_) =>
      Assoc.UniqueAppend(acc, (key, Commented(item)));
      Assoc.PutFresh(acc, key, Commented(item));
    case _ =>
      Assoc.UniqueAppend(acc, (key, item));
      Assoc.PutFresh(acc, key, item);
  }

  /** The entries of properties `i` on, each property's piece after the previous one's. */
  function ObjectPieces(v: Value, i: nat): (r: seq<(string, Value)>)
    requires v.Obj? && i <= |v.entries|
    ensures |r| >= |v.entries| - i
    decreases |v.entries| - i
  {
    if i == |v.entries| then [] else EntryPiece(v.entries[i].0, v.entries[i].1) + ObjectPieces(v, i + 1)
  }

  /** With no key clash, `toCommentedObject` from property `i` on appends the pieces in property order. */
  lemma {:induction false} CommentedEntriesInOrder(v: Value, i: nat, acc: seq<(string, Value)>)
    requires v.Obj? && i <= |v.entries|
    requires Assoc.UniqueKeys(acc + ObjectPieces(v, i))
    ensures CommentedEntries(v, i, acc) == acc + ObjectPieces(v, i)
    decreases |v.entries| - i
  {
    if i < |v.entries| {
      var e := v.entries[i];
      var p := EntryPiece(e.0, e.1);
      var rest := ObjectPieces(v, i + 1);
      assert acc + ObjectPieces(v, i) == (acc + p) + rest;
      Assoc.KeysConcat(acc + p, rest);
      Assoc.DistinctConcat(Assoc.Keys(acc + p), Assoc.Keys(rest));
      CommentedEntryInOrder(acc, e.0, e.1);
      CommentedEntriesInOrder(v, i + 1, acc + p);
    }
  }

  /**
   * When no marker key clashes with another key, the object form lists, property by
   * property, the markers of its description and then the property.
   */
  lemma ObjectInOrder(v: Value)
    requires v.Obj? && Assoc.UniqueKeys(ObjectPieces(v, 0))
    ensures Commented(v) == Obj(ObjectPieces(v, 0))
  {
    assert [] + ObjectPieces(v, 0) == ObjectPieces(v, 0);
    CommentedEntriesInOrder(v, 0, []);
  }

  /** A scalar child, or a child with a blank description, leaves no marker in the array form. */
  lemma UndescribedItem(item: Value)
    requires !item.Arr? && !item.Obj?
    requires item.DV? ==> |DescriptionLines(item.d.description)| == 0
    ensures Spread(CommentedPiece(item)) == [Commented(item)]
  {
  }

  /** In the array form a described child contributes one marker per line, then its commented value. */
  lemma DescribedItem(d: Default)
    requires |DescriptionLines(d.description)| > 0
    requires !Commented(d.value).Arr?
    ensures Spread(CommentedPiece(DV(d))) == ArrayMarkers(DescriptionLines(d.description)) + [Commented(d.value)]
  {
  }

  /** A described element contributes its markers, then its commented value spread. */
  lemma DescribedPiece(d: Default)
    requires |DescriptionLines(d.description)| > 0
    ensures Spread(CommentedPiece(DV(d))) == ArrayMarkers(DescriptionLines(d.description)) + Spread(Commented(d.value))
  {
  }

  lemma OneLineDescription(line: string)
    requires '\n' !in line && |line| > 0 && !IsWhitespace(line[0])
    ensures DescriptionLines(Str(line)) == [line]
  {
    assert !AllWhitespace(line);
    SplitNoSeparator(line, '\n');
  }

  lemma TwoLineDescription(first: string, second: string)
    requires '\n' !in first && '\n' !in second && |first| > 0 && !IsWhitespace(first[0])
    ensures DescriptionLines(Str(first + "\n" + second)) == [first, second]
  {
    var s := first + "\n" + second;
    assert s[0] == first[0];
    assert !AllWhitespace(s);
    assert Join([first, second], "\n") == s;
    SplitJoin([first, second], '\n');
  }

  /** The marker of line `i` in the array form, for a one-digit `i`. */
  lemma ArrayMarkerText(prefix: string, i: nat, line: string)
    requires i < 10 && prefix == [DigitChar(i)] + ": "
    ensures MAGIC + NatToString(i) + ": " + line == MAGIC + prefix + line
  {
  }

  lemma OneMarker(line: string)
    ensures ArrayMarkers([line]) == [Str(MAGIC + "0: " + line)]
  {
    ArrayMarkerText("0: ", 0, line);
  }

  lemma TwoMarkers(first: string, second: string)
    ensures ArrayMarkers([first, second]) == [Str(MAGIC + "0: " + first), Str(MAGIC + "1: " + second)]
  {
    ArrayMarkerText("0: ", 0, first);
    ArrayMarkerText("1: ", 1, second);
  }

  /** A scalar described on one line contributes its marker, then itself. */
  lemma DescribedOneLine(line: string, x: Value)
    requires '\n' !in line && |line| > 0 && !IsWhitespace(line[0])
    requires !(x.Arr? || x.Obj? || x.DV?)
    ensures Spread(CommentedPiece(DV(Default(x, Str(line))))) == [Str(MAGIC + "0: " + line), x]
  {
    OneLineDescription(line);
    OneMarker(line);
    DescribedItem(Default(x, Str(line)));
  }

  /** A scalar described on two lines contributes its two markers, then itself. */
  lemma DescribedTwoLines(first: string, second: string, x: Value)
    requires '\n' !in first && '\n' !in second && |first| > 0 && !IsWhitespace(first[0])
    requires !(x.Arr? || x.Obj? || x.DV?)
    ensures Spread(CommentedPiece(DV(Default(x, Str(first + "\n" + second)))))
         == [Str(MAGIC + "0: " + first), Str(MAGIC + "1: " + second), x]
  {
    TwoLineDescription(first, second);
    TwoMarkers(first, second);
    DescribedItem(Default(x, Str(first + "\n" + second)));
  }

  /**
   * A worked `toCommentedArray` example: `[0, <1 described by l1>, 2, <3 described by
   * l3 and l4 on two lines>]` becomes `[0, MAGIC+'0: '+l1, 1, 2, MAGIC+'0: '+l3, MAGIC+'1: '+l4, 3]`.
   */
  lemma CommentedArrayExample(l1: string, l3: string, l4: string)
    requires '\n' !in l1 && |l1| > 0 && !IsWhitespace(l1[0])
    requires '\n' !in l3 && '\n' !in l4 && |l3| > 0 && !IsWhitespace(l3[0])
    ensures
      var d1 := DV(Default(Num(1), Str(l1)));
      var d3 := DV(Default(Num(3), Str(l3 + "\n" + l4)));
      var m1 := Str(MAGIC + "0: " + l1);
      var m3 := Str(MAGIC + "0: " + l3);
      var m4 := Str(MAGIC + "1: " + l4);
      Commented(Arr([Num(0), d1, Num(2), d3])) == Arr([Num(0), m1, Num(1), Num(2), m3, m4, Num(3)])
  {
    var d1 := DV(Default(Num(1), Str(l1)));
    var d3 := DV(Default(Num(3), Str(l3 + "\n" + l4)));
    var m1 := Str(MAGIC + "0: " + l1);
    var m3 := Str(MAGIC + "0: " + l3);
    var m4 := Str(MAGIC + "1: " + l4);
    var v := Arr([Num(0), d1, Num(2), d3]);
    DescribedOneLine(l1, Num(1));
    DescribedTwoLines(l3, l4, Num(3));
    FourItems(v, [Num(0)], [m1, Num(1)], [Num(2)], [m3, m4, Num(3)]);
    Seqs.Splice1213(Num(0), m1, Num(1), Num(2), m3, m4, Num(3));
  }

  /** The marker key of line `i` of a property's description, for a one-digit `i`. */
  lemma MarkerKeyText(key: string, i: nat, digit: string)
    requires i < 10 && digit == [DigitChar(i)]
    ensures MAGIC + key + NatToString(i) == MAGIC + key + digit
  {
  }

  /** A scalar property described on one line is preceded by its one marker. */
  lemma DescribedOneLineEntry(key: string, line: string, x: Value)
    requires '\n' !in line && |line| > 0 && !IsWhitespace(line[0])
    requires !(x.Arr? || x.Obj? || x.DV?)
    ensures EntryPiece(key, DV(Default(x, Str(line)))) == [(MAGIC + key + "0", Str(line)), (key, x)]
  {
    OneLineDescription(line);
    MarkerKeyText(key, 0, "0");
    assert MarkerEntries(key, [line]) == [(MAGIC + key + "0", Str(line))];
  }

  /** A scalar property described on two lines is preceded by its two markers. */
  lemma DescribedTwoLinesEntry(key: string, first: string, second: string, x: Value)
    requires '\n' !in first && '\n' !in second && |first| > 0 && !IsWhitespace(first[0])
    requires !(x.Arr? || x.Obj? || x.DV?)
    ensures EntryPiece(key, DV(Default(x, Str(first + "\n" + second))))
         == [(MAGIC + key + "0", Str(first)), (MAGIC + key + "1", Str(second)), (key, x)]
  {
    TwoLineDescription(first, second);
    MarkerKeyText(key, 0, "0");
    MarkerKeyText(key, 1, "1");
    assert MarkerEntries(key, [first, second]) == [(MAGIC + key + "0", Str(first)), (MAGIC + key + "1", Str(second))];
  }

  /** The pieces from property `i` on: property `i`'s piece, then those after it. */
  lemma PiecesStep(v: Value, i: nat, piece: seq<(string, Value)>)
    requires v.Obj? && i < |v.entries| && EntryPiece(v.entries[i].0, v.entries[i].1) == piece
    ensures ObjectPieces(v, i) == piece + ObjectPieces(v, i + 1)
  {
  }

  lemma FourPieces(v: Value, p0: seq<(string, Value)>, p1: seq<(string, Value)>, p2: seq<(string, Value)>,
                   p3: seq<(string, Value)>)
    requires v.Obj? && |v.entries| == 4
    requires EntryPiece(v.entries[0].0, v.entries[0].1) == p0 && EntryPiece(v.entries[1].0, v.entries[1].1) == p1
    requires EntryPiece(v.entries[2].0, v.entries[2].1) == p2 && EntryPiece(v.entries[3].0, v.entries[3].1) == p3
    ensures ObjectPieces(v, 0) == p0 + p1 + p2 + p3
  {
    assert ObjectPieces(v, 4) == [];
    PiecesStep(v, 3, p3);
    PiecesStep(v, 2, p2);
    PiecesStep(v, 1, p1);
    PiecesStep(v, 0, p0);
    Seqs.AppendAssoc(p2, p3, []);
    Seqs.AppendAssoc(p1, p2, p3);
    Seqs.AppendAssoc(p0, p1 + p2, p3);
    Seqs.AppendAssoc(p0, p1, p2);
  }

  /** The keys of the worked `toCommentedObject` result are all different. */
  lemma ObjectExampleKeys(l1: string, l3: string, l4: string)
    ensures Assoc.UniqueKeys([("a", Num(0)), (MAGIC + "b0", Str(l1)), ("b", Num(1)), ("c", Num(2)),
                              (MAGIC + "d0", Str(l3)), (MAGIC + "d1", Str(l4)), ("d", Num(3))])
  {
    assert (MAGIC + "b0")[8] == 'b' && (MAGIC + "d0")[8] == 'd' && (MAGIC + "d1")[8] == 'd';
    assert (MAGIC + "d0")[9] == '0' && (MAGIC + "d1")[9] == '1';
    Assoc.UniqueByEntries([("a", Num(0)), (MAGIC + "b0", Str(l1)), ("b", Num(1)), ("c", Num(2)),
                           (MAGIC + "d0", Str(l3)), (MAGIC + "d1", Str(l4)), ("d", Num(3))]);
  }

  /** The pieces of the worked `toCommentedObject` example's properties, one after the other. */
  lemma ObjectExamplePieces(l1: string, l3: string, l4: string)
    requires '\n' !in l1 && |l1| > 0 && !IsWhitespace(l1[0])
    requires '\n' !in l3 && '\n' !in l4 && |l3| > 0 && !IsWhitespace(l3[0])
    ensures
      var d1 := DV(Default(Num(1), Str(l1)));
      var d3 := DV(Default(Num(3), Str(l3 + "\n" + l4)));
      ObjectPieces(Obj([("a", Num(0)), ("b", d1), ("c", Num(2)), ("d", d3)]), 0)
        == [("a", Num(0)), (MAGIC + "b0", Str(l1)), ("b", Num(1)), ("c", Num(2)),
            (MAGIC + "d0", Str(l3)), (MAGIC + "d1", Str(l4)), ("d", Num(3))]
  {
    var d1 := DV(Default(Num(1), Str(l1)));
    var d3 := DV(Default(Num(3), Str(l3 + "\n" + l4)));
    var v := Obj([("a", Num(0)), ("b", d1), ("c", Num(2)), ("d", d3)]);
    var ea, eb, ec := ("a", Num(0)), ("b", Num(1)), ("c", Num(2));
    var mb, md0, md1, ed := (MAGIC + "b0", Str(l1)), (MAGIC + "d0", Str(l3)), (MAGIC + "d1", Str(l4)), ("d", Num(3));
    DescribedOneLineEntry("b", l1, Num(1));
    DescribedTwoLinesEntry("d", l3, l4, Num(3));
    assert MAGIC + "b" + "0" == MAGIC + "b0";
    assert MAGIC + "d" + "0" == MAGIC + "d0" && MAGIC + "d" + "1" == MAGIC + "d1";
    FourPieces(v, [ea], [mb, eb], [ec], [md0, md1, ed]);
    Seqs.Splice1213(ea, mb, eb, ec, md0, md1, ed);
  }

  /**
   * A worked `toCommentedObject` example: `{a: 0, b: <1 described by l1>, c: 2, d: <3
   * described by l3 and l4 on two lines>}` becomes `{a: 0, [MAGIC+'b0']: l1, b: 1, c: 2,
   * [MAGIC+'d0']: l3, [MAGIC+'d1']: l4, d: 3}`, with each marker just before its property.
   */
  lemma CommentedObjectExample(l1: string, l3: string, l4: string, parent: Value)
    requires '\n' !in l1 && |l1| > 0 && !IsWhitespace(l1[0])
    requires '\n' !in l3 && '\n' !in l4 && |l3| > 0 && !IsWhitespace(l3[0])
    ensures
      var d1 := DV(Default(Num(1), Str(l1)));
      var d3 := DV(Default(Num(3), Str(l3 + "\n" + l4)));
      var source := Obj([("a", Num(0)), ("b", d1), ("c", Num(2)), ("d", d3)]);
      Commented(DV(Default(source, parent)))
        == Obj([("a", Num(0)), (MAGIC + "b0", Str(l1)), ("b", Num(1)), ("c", Num(2)),
                (MAGIC + "d0", Str(l3)), (MAGIC + "d1", Str(l4)), ("d", Num(3))])
  {
    var d1 := DV(Default(Num(1), Str(l1)));
    var d3 := DV(Default(Num(3), Str(l3 + "\n" + l4)));
    var v := Obj([("a", Num(0)), ("b", d1), ("c", Num(2)), ("d", d3)]);
    ObjectExamplePieces(l1, l3, l4);
    ObjectExampleKeys(l1, l3, l4);
    ObjectInOrder(v);
  }

  /**
   * A nested case: `{a: [0, <1 described by l1>]}` becomes
   * `{a: [0, MAGIC+'0: '+l1, 1]}`.
   */
  lemma NestedArrayInObjectExample(l1: string, parent: Value)
    requires '\n' !in l1 && |l1| > 0 && !IsWhitespace(l1[0])
    ensures
      var source := Obj([("a", Arr([Num(0), DV(Default(Num(1), Str(l1)))]))]);
      Commented(DV(Default(source, parent))) == Obj([("a", Arr([Num(0), Str(MAGIC + "0: " + l1), Num(1)]))])
  {
    var a := Arr([Num(0), DV(Default(Num(1), Str(l1)))]);
    var m1 := Str(MAGIC + "0: " + l1);
    DescribedOneLine(l1, Num(1));
    assert CommentedItems(a, 2) == [];
    ItemsStep(a, 1, [m1, Num(1)]);
    ItemsStep(a, 0, [Num(0)]);
    assert [Num(0)] + ([m1, Num(1)] + []) == [Num(0), m1, Num(1)];
    assert Commented(a) == Arr([Num(0), m1, Num(1)]);
    var v := Obj([("a", a)]);
    assert ObjectPieces(v, 1) == [];
    PiecesStep(v, 0, [("a", Arr([Num(0), m1, Num(1)]))]);
    Assoc.UniqueByEntries([("a", Arr([Num(0), m1, Num(1)]))]);
    ObjectInOrder(v);
  }

  /**
   * Another nested case: `[0, {a: <1 described by l1>}]` becomes
   * `[0, {[MAGIC+'a0']: l1, a: 1}]`.
   */
  lemma NestedObjectInArrayExample(l1: string, parent: Value)
    requires '\n' !in l1 && |l1| > 0 && !IsWhitespace(l1[0])
    ensures
      var source := Arr([Num(0), Obj([("a", DV(Default(Num(1), Str(l1))))])]);
      Commented(DV(Default(source, parent))) == Arr([Num(0), Obj([(MAGIC + "a0", Str(l1)), ("a", Num(1))])])
  {
    var o := Obj([("a", DV(Default(Num(1), Str(l1))))]);
    var pa := [(MAGIC + "a0", Str(l1)), ("a", Num(1))];
    DescribedOneLineEntry("a", l1, Num(1));
    assert MAGIC + "a" + "0" == MAGIC + "a0";
    assert ObjectPieces(o, 1) == [];
    PiecesStep(o, 0, pa);
    MarkerKeyDiffers("a", 0);
    MarkerKeyText("a", 0, "0");
    Assoc.UniqueByEntries(pa);
    assert pa + [] == pa;
    ObjectInOrder(o);
    assert CommentedPiece(o) == Obj(pa);
    var v := Arr([Num(0), o]);
    assert CommentedItems(v, 2) == [];
    ItemsStep(v, 1, [Obj(pa)]);
    ItemsStep(v, 0, [Num(0)]);
  }

  /** The commented items from `i` on: element `i`'s piece, then those after it. */
  lemma ItemsStep(v: Value, i: nat, piece: seq<Value>)
    requires v.Arr? && i < |v.items| && Spread(CommentedPiece(v.items[i])) == piece
    ensures CommentedItems(v, i) == piece + CommentedItems(v, i + 1)
  {
  }

  /** The commented items of a four-element array: the four pieces, in order. */
  lemma FourItems(v: Value, p0: seq<Value>, p1: seq<Value>, p2: seq<Value>, p3: seq<Value>)
    requires v.Arr? && |v.items| == 4
    requires Spread(CommentedPiece(v.items[0])) == p0 && Spread(CommentedPiece(v.items[1])) == p1
    requires Spread(CommentedPiece(v.items[2])) == p2 && Spread(CommentedPiece(v.items[3])) == p3
    ensures Commented(v) == Arr(p0 + p1 + p2 + p3)
  {
    assert CommentedItems(v, 4) == [];
    ItemsStep(v, 3, p3);
    ItemsStep(v, 2, p2);
    ItemsStep(v, 1, p1);
    ItemsStep(v, 0, p0);
    Seqs.AppendAssoc(p2, p3, []);
    Seqs.AppendAssoc(p1, p2, p3);
    Seqs.AppendAssoc(p0, p1 + p2, p3);
    Seqs.AppendAssoc(p0, p1, p2);
  }

  /**
   * A plain nested array is spliced into its parent rather than nested, because the callback's
   * array result is spread by `[].concat(...)`.
   */
  lemma NestedArraySpliced(a: Value, b: Value)
    requires !(a.Arr? || a.Obj? || a.DV?) && !(b.Arr? || b.Obj? || b.DV?)
    ensures Commented(Arr([a, Arr([b])])) == Arr([a, b])
  {
    var inner := Arr([b]);
    assert CommentedItems(inner, 0) == [b] + CommentedItems(inner, 1);
    assert CommentedPiece(inner) == Arr([b]);
    var v := Arr([a, inner]);
    assert CommentedItems(v, 1) == [b] + CommentedItems(v, 2);
    assert CommentedItems(v, 0) == [a] + CommentedItems(v, 1);
  }

  /** A described array-valued element is spliced too: its marker, then its elements. */
  lemma DescribedArraySpliced(line: string, a: Value, b: Value)
    requires '\n' !in line && |line| > 0 && !IsWhitespace(line[0])
    requires !(a.Arr? || a.Obj? || a.DV?) && !(b.Arr? || b.Obj? || b.DV?)
    ensures Commented(Arr([DV(Default(Arr([a, b]), Str(line)))])) == Arr([Str(MAGIC + "0: " + line), a, b])
  {
    OneLineDescription(line);
    OneMarker(line);
    var inner := Arr([a, b]);
    ItemsStep(inner, 1, [b]);
    ItemsStep(inner, 0, [a]);
    assert [a] + ([b] + CommentedItems(inner, 2)) == [a, b];
    var m := Str(MAGIC + "0: " + line);
    var v := Arr([DV(Default(inner, Str(line)))]);
    assert Commented(inner) == Arr([a, b]);
    DescribedPiece(Default(inner, Str(line)));
    assert [m] + [a, b] == [m, a, b];
    ItemsStep(v, 0, [m, a, b]);
    assert [m, a, b] + CommentedItems(v, 1) == [m, a, b];
  }

  /**
   * A value the commented form leaves alone: no wrapper anywhere, no array directly inside an
   * array, and no key twice in an object.
   */
  predicate Plain(v: Value) {
    match v
    case DV(_) => false
    case Arr(items) => forall i :: 0 <= i < |items| ==> !items[i].Arr? && Plain(items[i])
    case Obj(es) => Assoc.UniqueKeys(es) && forall i :: 0 <= i < |es| ==> Plain(es[i].1)
    case _ => true
  }

  /** A value with no `DefaultValue` wrapper at any depth, and no key twice in any object. */
  predicate Unwrapped(v: Value) {
    match v
    case DV(_) => false
    case Arr(items) => forall i :: 0 <= i < |items| ==> Unwrapped(items[i])
    case Obj(es) => Assoc.UniqueKeys(es) && forall i :: 0 <= i < |es| ==> Unwrapped(es[i].1)
    case _ => true
  }

  predicate AllUnwrapped(s: seq<Value>) {
    forall i :: 0 <= i < |s| ==> Unwrapped(s[i])
  }

  predicate UnwrappedEntries(es: seq<(string, Value)>) {
    Assoc.UniqueKeys(es) && forall i :: 0 <= i < |es| ==> Unwrapped(es[i].1)
  }

  /** Writing an unwrapped value into unwrapped entries keeps them unwrapped. */
  lemma {:induction false} PutUnwrapped(m: seq<(string, Value)>, k: string, v: Value)
    ensures UnwrappedEntries(m) && Unwrapped(v) ==> UnwrappedEntries(Assoc.Put(m, k, v))
  {
    if UnwrappedEntries(m) && Unwrapped(v) && |m| > 0 {
      var r := Assoc.Put(m, k, v);
      Assoc.Cons(m[0], m[1..]);
      Seqs.FirstSplit(m);
      if m[0].0 == k {
        assert r == [(k, v)] + m[1..];
        assert forall i :: 1 <= i < |r| ==> r[i] == m[i];
      } else {
        var rest := Assoc.Put(m[1..], k, v);
        assert forall i :: 0 <= i < |m| - 1 ==> m[1..][i] == m[i + 1];
        PutUnwrapped(m[1..], k, v);
        assert r == [m[0]] + rest;
        assert forall i :: 1 <= i < |r| ==> r[i] == rest[i - 1];
      }
    }
  }

  lemma ConcatUnwrapped(a: seq<Value>, b: seq<Value>)
    requires AllUnwrapped(a) && AllUnwrapped(b)
    ensures AllUnwrapped(a + b)
  {
    assert forall i :: 0 <= i < |a + b| ==> (a + b)[i] == if i < |a| then a[i] else b[i - |a|];
  }

  lemma SpreadUnwrapped(x: Value)
    requires Unwrapped(x)
    ensures AllUnwrapped(Spread(x))
  {
  }

  /** Writing the marker lines, which are strings, keeps unwrapped entries unwrapped. */
  lemma {:induction false} MarkersUnwrapped(acc: seq<(string, Value)>, key: string, lines: seq<string>, i: nat)
    requires i <= |lines| && UnwrappedEntries(acc)
    ensures UnwrappedEntries(PutMarkers(acc, key, lines, i))
    decreases |lines| - i
  {
    if i < |lines| {
      PutUnwrapped(acc, MAGIC + key + NatToString(i), Str(lines[i]));
      MarkersUnwrapped(Assoc.Put(acc, MAGIC + key + NatToString(i), Str(lines[i])), key, lines, i + 1);
    }
  }

  /**
   * The commented form holds no wrapper at any depth, and no object in it has a key twice:
   * every `DefaultValue` has been replaced by its value and its description by comment entries.
   */
  lemma {:induction false} CommentedUnwrapped(v: Value)
    ensures Unwrapped(Commented(v))
    decreases v, 2, 0
  {
    match v
    case Arr(_) => ItemsUnwrapped(v, 0);
    case Obj(_) => EntriesUnwrapped(v, 0, []);
    case DV(d) => CommentedUnwrapped(d.value);
    case _ =>
  }

  /** What one element contributes to the array form is unwrapped. */
  lemma {:induction false} PieceUnwrapped(item: Value)
    ensures AllUnwrapped(Spread(CommentedPiece(item)))
    decreases item, 3, 0
  {
    match item
    case DV(d) =>
      CommentedUnwrapped(d.value);
      SpreadUnwrapped(Commented(d.value));
      var lines := DescriptionLines(d.description);
      if |lines| > 0 {
        ConcatUnwrapped(ArrayMarkers(lines), Spread(Commented(d.value)));
      }
    case Arr(_) => CommentedUnwrapped(item);
    case Obj(_) => CommentedUnwrapped(item);
    case _ =>
  }

  /** The array form from element `i` on is unwrapped. */
  lemma {:induction false} ItemsUnwrapped(v: Value, i: nat)
    requires v.Arr? && i <= |v.items|
    ensures AllUnwrapped(CommentedItems(v, i))
    decreases v, 1, |v.items| - i
  {
    if i < |v.items| {
      PieceUnwrapped(v.items[i]);
      ItemsUnwrapped(v, i + 1);
      ConcatUnwrapped(Spread(CommentedPiece(v.items[i])), CommentedItems(v, i + 1));
    }
  }

  /** One property written into unwrapped entries leaves them unwrapped. */
  lemma {:induction false} EntryUnwrapped(acc: seq<(string, Value)>, key: string, item: Value)
    requires UnwrappedEntries(acc)
    ensures UnwrappedEntries(CommentedEntry(acc, key, item))
    decreases item, 3, 0
  {
    match item
    case DV(d) =>
      var lines := DescriptionLines(d.description);
      MarkersUnwrapped(acc, key, lines, 0);
      CommentedUnwrapped(d.value);
      PutUnwrapped(PutMarkers(acc, key, lines, 0), key, Commented(d.value));
    case Arr(_) =>
      CommentedUnwrapped(item);
      PutUnwrapped(acc, key, Commented(item));
    case Obj(_) =>
      CommentedUnwrapped(item);
      PutUnwrapped(acc, key, Commented(item));
    case _ =>
      PutUnwrapped(acc, key, item);
  }

  /** The object form from property `i` on, written into unwrapped entries, is unwrapped. */
  lemma {:induction false} EntriesUnwrapped(v: Value, i: nat, acc: seq<(string, Value)>)
    requires v.Obj? && i <= |v.entries| && UnwrappedEntries(acc)
    ensures UnwrappedEntries(CommentedEntries(v, i, acc))
    decreases v, 1, |v.entries| - i
  {
    if i < |v.entries| {
      var e := v.entries[i];
      EntryUnwrapped(acc, e.0, e.1);
      EntriesUnwrapped(v, i + 1, CommentedEntry(acc, e.0, e.1));
    }
  }

  /** Without wrappers there is nothing to comment: the commented form of a plain value is the value itself. */
  lemma {:induction false} PlainUnchanged(v: Value)
    requires Plain(v)
    ensures Commented(v) == v
    decreases v, 2, 0
  {
    match v
    case Arr(items) =>
      PlainItemsUnchanged(v, 0);
      assert items[0..] == items;
    case Obj(es) =>
      PlainEntriesUnchanged(v, 0);
      assert es[..0] == [] && es[..|es|] == es;
    case _ =>
  }

  lemma {:induction false} PlainItemsUnchanged(v: Value, i: nat)
    requires v.Arr? && i <= |v.items| && Plain(v)
    ensures CommentedItems(v, i) == v.items[i..]
    decreases v, 1, |v.items| - i
  {
    if i < |v.items| {
      var item := v.items[i];
      PlainItemsUnchanged(v, i + 1);
      if item.Obj? {
        PlainUnchanged(item);
      }
      assert v.items[i..] == [item] + v.items[i + 1..];
    }
  }

  lemma {:induction false} PlainEntriesUnchanged(v: Value, i: nat)
    requires v.Obj? && i <= |v.entries| && Plain(v)
    ensures CommentedEntries(v, i, v.entries[..i]) == v.entries
    decreases v, 1, |v.entries| - i
  {
    var es := v.entries;
    if i < |es| {
      var (key, item) := es[i];
      if item.Arr? || item.Obj? {
        PlainUnchanged(item);
      }
      assert key !in Assoc.Keys(es[..i]) by {
        Assoc.KeysPrefix(es, i);
        Assoc.KeysAt(es, i);
      }
      assert CommentedEntry(es[..i], key, item) == Assoc.Put(es[..i], key, item);
      Assoc.PutFresh(es[..i], key, item);
      Seqs.PrefixGrow(es, i);
      PlainEntriesUnchanged(v, i + 1);
      assert CommentedEntries(v, i, es[..i]) == CommentedEntries(v, i + 1, es[..i + 1]);
    } else {
      assert es[..i] == es;
    }
  }

  // ---------------------------------------------------------------- the wrapper object

  /** A `DefaultValue` instance. */
  class DefaultValue {
    var value: Value
    var description: Value

    constructor (value: Value, description: Value)
      ensures this.value == value && this.description == description
    {
      this.value := value;
      this.description := description;
    }

    function State(): Default
      reads this
    {
      Default(value, description)
    }

    /** `clone`: a new wrapper with the same value and description. */
    method Clone() returns (c: DefaultValue)
      ensures fresh(c)
      ensures c.State() == State()
    {
      c := new DefaultValue(value, description);
    }

    /** `flatten`: unwraps nested wrappers in place. */
    method Flatten()
      modifies this
      ensures State() == Flattened(old(State()))
    {
      var f := Flattened(State());
      value := f.value;
      description := f.description;
    }

    /** `merge`: combines `src` into this wrapper in place; `undefined` throws before anything changes. */
    method Merge(src: Source) returns (r: Result<(), Error>)
      modifies this
      ensures r.Failure? <==> src.Missing?
      ensures r.Success? ==> State() == Merged(old(State()), src).value
      ensures r.Failure? ==> State() == old(State())
    {
      if src.Missing? {
        return Failure(TypeError("Cannot convert undefined or null to object"));
      }
      if src.Wrapper? && !src.w.value.Null? {
        Flatten();
        var s := Flattened(src.w);
        MergeValue(s.value);
        if Truthy(s.description) {
          description := s.description;
        }
      } else {
        var desc := if src.Wrapper? then src.w.description else src.description;
        if Truthy(desc) {
          description := desc;
        }
      }
      r := Success(());
    }

    /** The value part of `merge`, once both sides are flattened. */
    method MergeValue(sv: Value)
      requires !value.DV? && !sv.DV?
      modifies this
      ensures value == MergedValue(old(value), sv)
      ensures description == old(description)
    {
      if TypeOf(sv) == TypeOf(value) {
        if value.Arr? {
          value := Arr(value.items + sv.items);
        } else if value.Obj? {
          var es := sv.entries;
          ghost var t := value.entries;
          for i := 0 to |es|
            invariant value == Obj(Assoc.Assign(t, es[..i]))
            invariant description == old(description)
          {
            Seqs.PrefixGrow(es, i);
            value := Obj(Assoc.Put(value.entries, es[i].0, es[i].1));
          }
          Seqs.Whole(es);
        } else {
          value := sv;
        }
      } else if value.Undef? || value.Null? {
        value := sv;
      }
    }

    /** `toCommented`: the array form, the object form, or the value itself. */
    method ToCommented() returns (r: Value)
      ensures r == Commented(value)
    {
      if value.Arr? {
        r := ToCommentedArray();
      } else if value.Obj? || value.DV? {
        r := ToCommentedObject();
      } else {
        r := value;
      }
    }

    /** `toCommentedArray`, for an array value. */
    method ToCommentedArray() returns (r: Value)
      requires value.Arr?
      ensures r == Commented(value)
      ensures r.Arr?
    {
      r := Arr(CommentedItems(value, 0));
    }

    /** `toCommentedObject`: a fresh object filled property by property in a `for…in` loop. */
    method ToCommentedObject() returns (r: Value)
      requires value.Obj? || value.DV?
      ensures r == Commented(value)
    {
      if value.DV? {
        return Commented(value.d.value);
      }
      var result: seq<(string, Value)> := [];
      for i := 0 to |value.entries|
        invariant CommentedEntries(value, i, result) == CommentedEntries(value, 0, [])
      {
        var (key, item) := value.entries[i];
        result := WriteProperty(result, key, item);
      }
      r := Obj(result);
    }
  }

  /** The body of the `for…in` loop of `toCommentedObject`, for property `key` holding `item`. */
  method WriteProperty(result: seq<(string, Value)>, key: string, item: Value) returns (r: seq<(string, Value)>)
    ensures r == CommentedEntry(result, key, item)
  {
    r := result;
    match item {
      case DV(d) =>
        var lines := DescriptionLines(d.description);
        for j := 0 to |lines|
          invariant PutMarkers(r, key, lines, j) == PutMarkers(result, key, lines, 0)
        {
          r := Assoc.Put(r, MAGIC + key + NatToString(j), Str(lines[j]));
        }
        r := Assoc.Put(r, key, Commented(d.value));
      case Arr(_) =>
        r := Assoc.Put(r, key, Commented(item));
      case Obj(_) =>
        r := Assoc.Put(r, key, Commented(item));
      case _ =>
        r := Assoc.Put(r, key, item);
    }
  }
}
