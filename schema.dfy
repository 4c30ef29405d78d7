/**
 * Default-value synthesis from JSON-Schema-shaped definitions (`Schema.getDefaultValue` and its
 * helpers in src/core/schema.js), modelled on values.
 *
 * `defs` maps each registered `$id` to its definition and `root` is the definition of the
 * schema the call is made on. A call evaluates to a wrapper, to `undefined` (`None`), or throws.
 * The source's recursion is bounded only by the JavaScript call stack; `fuel` stands for it, and
 * running out of it is the `RangeError` a stack overflow raises.
 *
 * `DefaultValue.merge` returns nothing, so every chained use of its result sees `undefined`:
 * a `$ref` definition never yields a wrapper, a typed definition with a `$ref` always throws,
 * and the `oneOf` alternatives of an array whose `items` have a default become `undefined`
 * elements. The model keeps this.
 */
module Schemas {
  import opened Wrappers
  import opened JsString
  import opened JsValue
  import opened DefaultValues
  import Assoc
  import Seqs

  /** The result of a `getDefaultValue` call: a wrapper, `undefined`, or an exception. */
  type Outcome = Result<Option<Default>, Error>

  /** `PRIMITIVE_DEFAULTS[type]` for a type name, when the name is one of its keys. */
  function PrimitiveDefault(t: string): (r: Option<Value>)
    ensures r.Some? <==> t in {"null", "boolean", "number", "integer", "string", "array", "object"}
    ensures r.Some? ==> !Truthy(r.value) || t == "array" || t == "object"
  {
    if t == "null" then Some(Null)
    else if t == "boolean" then Some(Bool(false))
    else if t == "number" || t == "integer" then Some(Num(0))
    else if t == "string" then Some(Str(""))
    else if t == "array" then Some(Arr([]))
    else if t == "object" then Some(Obj([]))
    else None
  }

  /** A call's result handed to `merge`. */
  function AsSource(o: Option<Default>): Source {
    match o
    case Some(d) => Wrapper(d)
    case None => Missing
  }

  /** A call's result stored as an element or a property. */
  function AsValue(o: Option<Default>): Value {
    match o
    case Some(d) => DV(d)
    case None => Undef
  }

  /** `'key' in d && d.key`, for an object-like definition. */
  predicate HasTruthy(d: Value, key: string)
    requires IsObjectLike(d)
  {
    HasProperty(d, key).value && Truthy(Field(d, key))
  }

  /** The type name `getTypedDefaultValue` dispatches on: the first one of an array `type`. */
  function TypeName(d: Value): Value
    requires IsObjectLike(d)
  {
    var t := Field(d, "type");
    if t.Arr? then (if |t.items| > 0 then t.items[0] else Undef) else t
  }

  /** The definition a call works on: a falsy argument means the schema's own definition. */
  function Effective(root: Value, def: Value): Value {
    if Truthy(def) then def else root
  }

  const OVERFLOW: Error := RangeError("Maximum call stack size exceeded")
  const MERGE_OF_UNDEFINED: Error := TypeError("Cannot read properties of undefined (reading 'merge')")

  /** `'examples' in d && Array.isArray(d.examples) && d.examples.length`. */
  predicate HasExample(d: Value)
    requires IsObjectLike(d)
  {
    HasProperty(d, "examples").value && Field(d, "examples").Arr? && |Field(d, "examples").items| > 0
  }

  /** `getDefaultValue(def)`. */
  function GetDefault(defs: map<string, Value>, root: Value, def: Value, fuel: nat): (r: Outcome)
    ensures fuel > 0 && !IsObjectLike(Effective(root, def)) ==> r.Failure?
    ensures
      var d := Effective(root, def);
      fuel > 0 && IsObjectLike(d) && HasProperty(d, "const").value ==>
        r == Success(Some(Default(Field(d, "const"), Field(d, "description"))))
    ensures
      var d := Effective(root, def);
      fuel > 0 && IsObjectLike(d) && !HasProperty(d, "const").value && HasProperty(d, "default").value ==>
        r == Success(Some(Default(Field(d, "default"), Field(d, "description"))))
    ensures
      var d := Effective(root, def);
      fuel > 0 && IsObjectLike(d) && !HasProperty(d, "const").value && !HasProperty(d, "default").value
        && HasExample(d) ==>
        r == Success(Some(Default(Field(d, "examples").items[0], Field(d, "description"))))
    ensures
      var d := Effective(root, def);
      (fuel > 0 && IsObjectLike(d) && !HasProperty(d, "const").value && !HasProperty(d, "default").value
        && !HasExample(d) && HasTruthy(d, "type") && HasTruthy(d, "$ref")) ==> r.Failure?
    ensures
      var d := Effective(root, def);
      (fuel > 0 && IsObjectLike(d) && !HasProperty(d, "const").value && !HasProperty(d, "default").value
        && !HasExample(d) && HasTruthy(d, "type")) ==> r == Typed(defs, root, d, fuel - 1)
    ensures
      var d := Effective(root, def);
      (fuel > 0 && IsObjectLike(d) && !HasProperty(d, "const").value && !HasProperty(d, "default").value
        && !HasExample(d) && !HasTruthy(d, "type")) ==> r.Success? ==> r.value.None?
    ensures
      var d := Effective(root, def);
      (fuel > 0 && IsObjectLike(d) && !HasProperty(d, "const").value && !HasProperty(d, "default").value
        && !HasExample(d) && !HasTruthy(d, "type") && !HasTruthy(d, "$ref")) ==> r == Success(None)
    decreases fuel, 1
  {
    if fuel == 0 then Failure(OVERFLOW)
    else
      var d := Effective(root, def);
      var hasConst :- HasProperty(d, "const");
      var desc := Field(d, "description");
      if hasConst then Success(Some(Default(Field(d, "const"), desc)))
      else if HasProperty(d, "default").value then Success(Some(Default(Field(d, "default"), desc)))
      else
        if HasExample(d) then Success(Some(Default(Field(d, "examples").items[0], desc)))
        else if HasTruthy(d, "type") then Typed(defs, root, d, fuel - 1)
        else if HasTruthy(d, "$ref") then Referred(defs, root, d, fuel - 1)
        else Success(None)
  }

  /** `{type: 'string'}` defaults to the empty string, without a description. */
  lemma StringTypeDefault(defs: map<string, Value>, root: Value, fuel: nat)
    requires fuel > 0
    ensures GetDefault(defs, root, Obj([("type", Str("string"))]), fuel) == Success(Some(Default(Str(""), Undef)))
  {
    var d := Obj([("type", Str("string"))]);
    assert Assoc.Keys(d.entries) == ["type"];
    assert !HasProperty(d, "const").value && !HasProperty(d, "default").value && !HasProperty(d, "examples").value;
    assert !HasProperty(d, "$ref").value && !HasProperty(d, "nullable").value;
    assert TypeName(d) == Str("string") && Field(d, "description") == Undef;
    assert Typed(defs, root, d, fuel - 1) == Success(Some(Default(Str(""), Undef)));
  }

  /** The definition `{type: ['integer', 'null'], nullable: true, description: text}`. */
  function NullableInteger(text: string): Value {
    Obj([("type", Arr([Str("integer"), Str("null")])), ("nullable", Bool(true)), ("description", Str(text))])
  }

  lemma NullableIntegerFields(text: string)
    ensures var d := NullableInteger(text);
      && !HasProperty(d, "const").value && !HasProperty(d, "default").value && !HasProperty(d, "examples").value
      && !HasProperty(d, "$ref").value && HasTruthy(d, "type") && HasTruthy(d, "nullable")
      && TypeName(d) == Str("integer") && Field(d, "description") == Str(text)
  {
    var e := NullableInteger(text).entries;
    assert e[1..][1..] == [e[2]];
    assert Assoc.Keys([e[2]]) == ["description"];
    assert Assoc.Keys(e[1..]) == ["nullable", "description"];
    assert Assoc.Keys(e) == ["type", "nullable", "description"];
  }

  /** A `nullable` definition whose `type` lists `integer` first defaults to `null`, keeping its description. */
  lemma NullableTypeDefault(defs: map<string, Value>, root: Value, fuel: nat, text: string)
    requires fuel > 0
    ensures GetDefault(defs, root, NullableInteger(text), fuel) == Success(Some(Default(Null, Str(text))))
  {
    NullableIntegerFields(text);
  }

  /** `getTypedDefaultValue(def)`. */
  function Typed(defs: map<string, Value>, root: Value, d: Value, fuel: nat): (r: Outcome)
    requires IsObjectLike(d)
    ensures HasTruthy(d, "$ref") ==> r.Failure?
    ensures r.Success? ==> r.value.Some? && r.value.value.description == Field(d, "description")
    ensures
      var ty := TypeName(d);
      ty != Str("array") && ty != Str("object") && PrimitiveDefault(ToStr(ty)).None? ==>
        r == Failure(Thrown("Cannot get default value for type " + ToStr(ty)))
    ensures
      var ty := TypeName(d);
      ty != Str("array") && ty != Str("object") && PrimitiveDefault(ToStr(ty)).Some? && !HasTruthy(d, "$ref") ==>
        r == Success(Some(Default(
          if HasTruthy(d, "nullable") then Null else PrimitiveDefault(ToStr(ty)).value,
          Field(d, "description"))))
    decreases fuel, 4
  {
    var desc := Field(d, "description");
    var ty := TypeName(d);
    var dv :-
      if ty == Str("array") then ArrayDefault(defs, root, d, fuel)
      else if ty == Str("object") then ObjectDefault(defs, root, d, fuel)
      else match PrimitiveDefault(ToStr(ty))
        case Some(p) => Success(Default(if HasTruthy(d, "nullable") then Null else p, desc))
        case None => Failure(Thrown("Cannot get default value for type " + ToStr(ty)));
    if HasTruthy(d, "$ref") then
      // the referred default is always undefined, and merging into undefined throws
      var referred :- Referred(defs, root, d, fuel);
      assert referred.None?;
      Failure(MERGE_OF_UNDEFINED)
    else Success(Some(dv))
  }

  /** `getReferredDefaultValue(def)`: always `undefined` when it does not throw. */
  function Referred(defs: map<string, Value>, root: Value, d: Value, fuel: nat): (r: Outcome)
    requires IsObjectLike(d)
    ensures r.Success? ==> r.value.None?
    ensures ToStr(Field(d, "$ref")) !in defs ==>
      r == Failure(Thrown("Schema " + ToStr(Field(d, "$ref")) + " is not loaded"))
    decreases fuel, 2
  {
    var id := ToStr(Field(d, "$ref"));
    if id !in defs then Failure(Thrown("Schema " + id + " is not loaded"))
    else
      var inner :- GetDefault(defs, root, defs[id], fuel);
      match inner
      case None => Failure(MERGE_OF_UNDEFINED)
      case Some(w) =>
        var _ :- Merged(w, DescriptionOnly(Field(d, "description")));
        Success(None)
  }

  /** `Object.assign({}, items)` followed by `delete items.oneOf`. */
  function ItemsWithoutOneOf(items: Value): Value {
    Obj(Assoc.Remove(OwnEntries(items), "oneOf"))
  }

  /** The default of the plain `items` (its copy without `oneOf`), or `undefined` when `def.items` is not an object. */
  function PlainItemsDefault(defs: map<string, Value>, root: Value, d: Value, fuel: nat): (r: Outcome)
    requires IsObjectLike(d)
    decreases fuel, 3, 0
  {
    var items := Field(d, "items");
    if HasProperty(d, "items").value && IsTypeofObject(items) then
      GetDefault(defs, root, ItemsWithoutOneOf(items), fuel)
    else Success(None)
  }

  /** `getArrayDefaultValue(def)`. */
  function ArrayDefault(defs: map<string, Value>, root: Value, d: Value, fuel: nat): (r: Result<Default, Error>)
    requires IsObjectLike(d)
    ensures r.Success? ==> r.value.value.Arr? && r.value.description == Field(d, "description")
    ensures !IsObjectLike(Field(d, "items")) ==> r.Failure?
    ensures
      var items := Field(d, "items");
      r.Success? && !(HasProperty(items, "oneOf").value && Field(items, "oneOf").Arr?) ==>
        PlainItemsDefault(defs, root, d, fuel).Success?
        && r.value.value.items == [AsValue(PlainItemsDefault(defs, root, d, fuel).value)]
    ensures
      var items := Field(d, "items");
      r.Success? && HasProperty(items, "oneOf").value && Field(items, "oneOf").Arr? ==>
        var ones := Field(items, "oneOf").items;
        && |r.value.value.items| == |ones|
        && PlainItemsDefault(defs, root, d, fuel).Success?
        && (PlainItemsDefault(defs, root, d, fuel).value.None? ==>
              forall i :: 0 <= i < |ones| ==>
                GetDefault(defs, root, ones[i], fuel).Success?
                && r.value.value.items[i] == AsValue(GetDefault(defs, root, ones[i], fuel).value))
        && (PlainItemsDefault(defs, root, d, fuel).value.Some? ==>
              forall i :: 0 <= i < |ones| ==> r.value.value.items[i] == Undef)
    decreases fuel, 3, 1
  {
    var desc := Field(d, "description");
    var items := Field(d, "items");
    var base :- PlainItemsDefault(defs, root, d, fuel);
    var hasOneOf :- HasProperty(items, "oneOf");
    var oneOf := Field(items, "oneOf");
    if hasOneOf && oneOf.Arr? then
      var elements :- Alternatives(defs, root, oneOf.items, base, fuel);
      Success(Default(Arr(elements), desc))
    else
      Success(Default(Arr([AsValue(base)]), desc))
  }

  /**
   * The `oneOf.map(...)` of `getArrayDefaultValue`: each alternative's default, or, when the
   * plain items have a default, `undefined` from `value.clone().merge(...)`.
   */
  function Alternatives(defs: map<string, Value>, root: Value, ones: seq<Value>, base: Option<Default>, fuel: nat)
    : (r: Result<seq<Value>, Error>)
    ensures r.Success? ==> |r.value| == |ones|
    ensures r.Success? && base.Some? ==> forall i :: 0 <= i < |r.value| ==> r.value[i] == Undef
    ensures r.Success? && base.None? ==> forall i :: 0 <= i < |ones| ==>
      GetDefault(defs, root, ones[i], fuel).Success? && r.value[i] == AsValue(GetDefault(defs, root, ones[i], fuel).value)
    decreases fuel, 2, |ones|
  {
    if |ones| == 0 then Success([])
    else
      var one :- GetDefault(defs, root, ones[0], fuel);
      var element :-
        if base.None? then Success(AsValue(one))
        else
          var _ :- Merged(base.value, AsSource(one));
          Success(Undef);
      var rest :- Alternatives(defs, root, ones[1..], base, fuel);
      Seqs.ShiftIndex(element, ones);
      Seqs.ShiftIndex(element, rest);
      Success([element] + rest)
  }

  /** The property names of `d.properties` the object default is built from. */
  function PropertyNames(d: Value): seq<string>
    requires IsObjectLike(d)
  {
    var props := Field(d, "properties");
    if HasProperty(d, "properties").value && IsTypeofObject(props) then Assoc.Keys(OwnEntries(props)) else []
  }

  /** `'oneOf' in d && Array.isArray(d.oneOf) && d.oneOf.length`. */
  predicate HasOneOf(d: Value)
    requires IsObjectLike(d)
  {
    HasProperty(d, "oneOf").value && Field(d, "oneOf").Arr? && |Field(d, "oneOf").items| > 0
  }

  /** The entries the `for…in` loop of `getObjectDefaultValue` builds from `def.properties`. */
  function DeclaredDefaults(defs: map<string, Value>, root: Value, d: Value, fuel: nat)
    : (r: Result<seq<(string, Value)>, Error>)
    requires IsObjectLike(d)
    decreases fuel, 3, 0
  {
    var props := Field(d, "properties");
    if HasProperty(d, "properties").value && IsTypeofObject(props) then
      PropertyDefaults(defs, root, OwnEntries(props), fuel, [])
    else Success([])
  }

  /** `getObjectDefaultValue(def)`. */
  function ObjectDefault(defs: map<string, Value>, root: Value, d: Value, fuel: nat): (r: Result<Default, Error>)
    requires IsObjectLike(d)
    ensures r.Success? ==> r.value.value.Obj? && r.value.description == Field(d, "description")
    ensures r.Success? ==> DeclaredDefaults(defs, root, d, fuel).Success?
    ensures r.Success? && !HasOneOf(d) ==> r.value.value == Obj(DeclaredDefaults(defs, root, d, fuel).value)
    ensures r.Success? && HasOneOf(d) ==>
      var first := GetDefault(defs, root, Field(d, "oneOf").items[0], fuel);
      && first.Success? && first.value.Some?
      && r.value.value == MergedValue(Obj(DeclaredDefaults(defs, root, d, fuel).value), Flattened(first.value.value).value)
    decreases fuel, 3, 1
  {
    var desc := Field(d, "description");
    var entries :- DeclaredDefaults(defs, root, d, fuel);
    var dv := Default(Obj(entries), desc);
    if HasOneOf(d) then
      var first :- GetDefault(defs, root, Field(d, "oneOf").items[0], fuel);
      var merged :- Merged(dv, AsSource(first));
      MergeIntoDefined(dv, first.value);
      Success(merged.(description := desc))
    else Success(dv)
  }

  /**
   * With `oneOf`, the object default holds every key of the first alternative's (object)
   * default with that alternative's value, and every declared property the alternative lacks
   * with the property's own default.
   */
  lemma ObjectDefaultOneOf(defs: map<string, Value>, root: Value, d: Value, fuel: nat)
    requires IsObjectLike(d) && HasOneOf(d) && ObjectDefault(defs, root, d, fuel).Success?
    requires
      var first := GetDefault(defs, root, Field(d, "oneOf").items[0], fuel);
      first.Success? && first.value.Some? && Flattened(first.value.value).value.Obj?
      && Assoc.UniqueKeys(Flattened(first.value.value).value.entries)
    ensures
      var alt := Flattened(GetDefault(defs, root, Field(d, "oneOf").items[0], fuel).value.value).value.entries;
      var declared := DeclaredDefaults(defs, root, d, fuel).value;
      var r := ObjectDefault(defs, root, d, fuel).value.value.entries;
      forall k :: Assoc.Get(r, k) == if k in Assoc.Keys(alt) then Assoc.Get(alt, k) else Assoc.Get(declared, k)
  {
  }

  /** The `for…in` loop of `getObjectDefaultValue`: each property's default stored under its name. */
  function PropertyDefaults(defs: map<string, Value>, root: Value, props: seq<(string, Value)>, fuel: nat,
                            acc: seq<(string, Value)>)
    : (r: Result<seq<(string, Value)>, Error>)
    ensures r.Success? ==> forall k :: k in Assoc.Keys(r.value) <==> k in Assoc.Keys(acc) || k in Assoc.Keys(props)
    decreases fuel, 2, |props|
  {
    if |props| == 0 then Success(acc)
    else
      var one :- GetDefault(defs, root, props[0].1, fuel);
      var r := PropertyDefaults(defs, root, props[1..], fuel, Assoc.Put(acc, props[0].0, AsValue(one)));
      assert Assoc.Keys(props) == [props[0].0] + Assoc.Keys(props[1..]);
      r
  }

  /**
   * Every declared property of an object default holds that property's own default, or
   * `undefined` when it has none; a name that is not a property keeps what it had.
   */
  lemma {:induction false} PropertyDefaultsValues(defs: map<string, Value>, root: Value, props: seq<(string, Value)>,
                                                  fuel: nat, acc: seq<(string, Value)>)
    requires PropertyDefaults(defs, root, props, fuel, acc).Success?
    requires Assoc.UniqueKeys(props)
    ensures forall i :: 0 <= i < |props| ==>
      GetDefault(defs, root, props[i].1, fuel).Success? &&
      Assoc.Get(PropertyDefaults(defs, root, props, fuel, acc).value, props[i].0)
        == Some(AsValue(GetDefault(defs, root, props[i].1, fuel).value))
    ensures forall k :: k !in Assoc.Keys(props) ==>
      Assoc.Get(PropertyDefaults(defs, root, props, fuel, acc).value, k) == Assoc.Get(acc, k)
    decreases |props|
  {
    if |props| > 0 {
      var r := PropertyDefaults(defs, root, props, fuel, acc).value;
      var k0 := props[0].0;
      var one := GetDefault(defs, root, props[0].1, fuel);
      assert one.Success?;
      var acc' := Assoc.Put(acc, k0, AsValue(one.value));
      Seqs.FirstSplit(props);
      Assoc.Cons(props[0], props[1..]);
      assert r == PropertyDefaults(defs, root, props[1..], fuel, acc').value;
      PropertyDefaultsValues(defs, root, props[1..], fuel, acc');
      forall i | 0 <= i < |props|
        ensures GetDefault(defs, root, props[i].1, fuel).Success?
        ensures Assoc.Get(r, props[i].0) == Some(AsValue(GetDefault(defs, root, props[i].1, fuel).value))
      {
        if i > 0 {
          assert props[i] == props[1..][i - 1];
        }
      }
    }
  }

  /** An object definition without `oneOf` gets one entry per declared property, holding its default. */
  lemma ObjectDefaultProperties(defs: map<string, Value>, root: Value, d: Value, fuel: nat)
    requires IsObjectLike(d) && ObjectDefault(defs, root, d, fuel).Success? && !HasOneOf(d)
    requires HasProperty(d, "properties").value && Field(d, "properties").Obj?
    requires Assoc.UniqueKeys(Field(d, "properties").entries)
    ensures
      var props := Field(d, "properties").entries;
      var r := ObjectDefault(defs, root, d, fuel).value.value.entries;
      forall i :: 0 <= i < |props| ==>
        GetDefault(defs, root, props[i].1, fuel).Success? &&
        Assoc.Get(r, props[i].0) == Some(AsValue(GetDefault(defs, root, props[i].1, fuel).value))
  {
    PropertyDefaultsValues(defs, root, Field(d, "properties").entries, fuel, []);
  }
}
