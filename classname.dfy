/**
 * The class-name builder (src/util/classname.js): a string, a list of class names or a map
 * from class names to flags becomes one `class` attribute value.
 */
module ClassNames {
  import opened Wrappers
  import opened JsString
  import opened JsValue
  import Seqs

  /** How `Array.prototype.join` prints one element: `undefined` and `null` as nothing. */
  function ItemText(v: Value): string {
    if v.Undef? || v.Null? then "" else ToStr(v)
  }

  function ItemTexts(items: seq<Value>): (r: seq<string>)
    ensures |r| == |items| && forall i :: 0 <= i < |items| ==> r[i] == ItemText(items[i])
  {
    if |items| == 0 then [] else [ItemText(items[0])] + ItemTexts(items[1..])
  }

  /** `keys.filter((key) => !!classname[key])` on an object-like value. */
  function Active(v: Value, keys: seq<string>): (r: seq<string>)
    requires IsObjectLike(v)
    ensures |r| <= |keys|
  {
    if |keys| == 0 then []
    else
      var rest := Active(v, keys[1..]);
      if Truthy(Field(v, keys[0])) then [keys[0]] + rest else rest
  }

  /** The message of the error thrown for any other input, with the input's JSON text. */
  function Rejected(v: Value): string {
    "Cannot process class name " + ToStr(v)
  }

  /**
   * `classname(v)`: a string as it is, a list's elements joined by spaces, an object's keys whose
   * values are truthy joined by spaces. `typeof null` is `'object'` too, so `null` fails while
   * its keys are listed; `undefined`, booleans and numbers are rejected with an error.
   */
  function ClassName(v: Value): (r: Result<string, Error>)
    ensures v.Str? ==> r == Success(v.s)
    ensures v.Arr? ==> r == Success(Join(ItemTexts(v.items), " "))
    ensures v.Obj? || v.DV? ==> r == Success(Join(Active(v, OwnKeys(v)), " "))
    ensures v.Null? ==> r.Failure? && r.error.TypeError?
    ensures v.Undef? || v.Bool? || v.Num? ==> r == Failure(Thrown(Rejected(v)))
    ensures r.Failure? <==> !v.Str? && !IsObjectLike(v)
  {
    match v
    case Str(s) => Success(s)
    case Arr(items) => Success(Join(ItemTexts(items), " "))
    case Null => Failure(TypeError("Cannot convert undefined or null to object"))
    case Obj(_) => Success(Join(Active(v, OwnKeys(v)), " "))
    case DV(_) => Success(Join(Active(v, OwnKeys(v)), " "))
    case _ => Failure(Thrown(Rejected(v)))
  }

  /** A key is kept exactly when it is listed and its value is truthy. */
  lemma {:induction false} ActiveMembers(v: Value, keys: seq<string>, k: string)
    requires IsObjectLike(v)
    ensures k in Active(v, keys) <==> k in keys && Truthy(Field(v, k))
  {
    if |keys| > 0 {
      ActiveMembers(v, keys[1..], k);
      Seqs.FirstSplit(keys);
    }
  }

  /** The filter keeps key order: the active keys of two runs of keys are those of each, in turn. */
  lemma {:induction false} ActiveOrder(v: Value, a: seq<string>, b: seq<string>)
    requires IsObjectLike(v)
    ensures Active(v, a + b) == Active(v, a) + Active(v, b)
  {
    if |a| == 0 {
      assert a + b == b;
    } else {
      Seqs.ConcatTail(a, b);
      ActiveOrder(v, a[1..], b);
      ActiveHead(v, a + b);
      ActiveHead(v, a);
      Seqs.AppendAssoc(Kept(v, a[0]), Active(v, a[1..]), Active(v, b));
    }
  }

  /** A key kept by the filter, alone, or nothing. */
  function Kept(v: Value, key: string): seq<string>
    requires IsObjectLike(v)
  {
    if Truthy(Field(v, key)) then [key] else []
  }

  /** The filter decides the first key, then goes on with the rest. */
  lemma ActiveHead(v: Value, keys: seq<string>)
    requires IsObjectLike(v) && |keys| > 0
    ensures Active(v, keys) == Kept(v, keys[0]) + Active(v, keys[1..])
  {
  }

  /** A list of single class names is recovered by splitting the result on spaces. */
  lemma ListWords(names: seq<string>)
    requires |names| >= 1 && forall i :: 0 <= i < |names| ==> ' ' !in names[i]
    ensures ClassName(Arr(seq(|names|, i requires 0 <= i < |names| => Str(names[i]))))
      == Success(Join(names, " "))
    ensures Split(Join(names, " "), ' ') == names
  {
    var items := seq(|names|, i requires 0 <= i < |names| => Str(names[i]));
    assert ItemTexts(items) == names;
    SplitJoin(names, ' ');
  }

  /** The active class names of a map are recovered by splitting the result on spaces. */
  lemma MapWords(v: Value)
    requires v.Obj?
    requires forall i :: 0 <= i < |v.entries| ==> ' ' !in v.entries[i].0
    requires |Active(v, OwnKeys(v))| >= 1
    ensures ClassName(v).Success?
    ensures Split(ClassName(v).value, ' ') == Active(v, OwnKeys(v))
  {
    var keys := OwnKeys(v);
    forall k | k in Active(v, keys) ensures ' ' !in k {
      ActiveMembers(v, keys, k);
      var i :| 0 <= i < |keys| && keys[i] == k;
      Assoc.KeysAt(v.entries, i);
    }
    SplitJoin(Active(v, keys), ' ');
  }
}
