/**
 * The JSON-like values that configuration, schema definitions and front-matter are made of,
 * with the parts of JavaScript's semantics the theme's logic observes: `typeOf`, truthiness,
 * `String(v)`, property access and the `in` operator. Numbers are integers (floating point is
 * not modelled). A `DV` is an instance of the schema module's `DefaultValue` wrapper class.
 */
module JsValue {
  import opened Wrappers
  import opened JsString
  import Assoc

  datatype Value =
    | Undef
    | Null
    | Bool(b: bool)
    | Num(n: int)
    | Str(s: string)
    | Arr(items: seq<Value>)
    | Obj(entries: seq<(string, Value)>)
    | DV(d: Default)

  /** The state of a `DefaultValue` instance: a wrapped value and its description. */
  datatype Default = Default(value: Value, description: Value)

  /**
   * An exception: a `TypeError` raised by the language, a `RangeError` for a call stack that
   * runs out, an `Error` thrown with a message, or the schema loader's error for a `$ref` that
   * is not a string (whose message embeds the value's JSON text).
   */
  datatype Error = TypeError(what: string) | RangeError(what: string) | Thrown(message: string) | InvalidReference(ref: Value)

  /** The names that the `typeOf` helper of src/core/schema.js produces. */
  datatype JsType = UndefinedType | NullType | BooleanType | NumberType | StringType | ArrayType | ObjectType

  function TypeOf(v: Value): (t: JsType)
    ensures t == ArrayType <==> v.Arr?
    ensures t == ObjectType <==> v.Obj? || v.DV?
  {
    match v
    case Undef => UndefinedType
    case Null => NullType
    case Bool(_) => BooleanType
    case Num(_) => NumberType
    case Str(_) => StringType
    case Arr(_) => ArrayType
    case Obj(_) => ObjectType
    case DV(_) => ObjectType
  }

  /** `typeof v === 'object'`: objects, arrays, wrappers and `null`. */
  predicate IsTypeofObject(v: Value) {
    v.Null? || v.Arr? || v.Obj? || v.DV?
  }

  /** JavaScript truthiness: `undefined`, `null`, `false`, `0` and `''` are falsy. */
  predicate Truthy(v: Value) {
    match v
    case Undef => false
    case Null => false
    case Bool(b) => b
    case Num(n) => n != 0
    case Str(s) => s != ""
    case _ => true
  }

  /** `String(v)`; arrays join their elements with `,`, rendering `undefined` and `null` as empty. */
  function ToStr(v: Value): string {
    match v
    case Undef => "undefined"
    case Null => "null"
    case Bool(b) => if b then "true" else "false"
    case Num(n) => IntToString(n)
    case Str(s) => s
    case Arr(items) =>
      Join(seq(|items|, i requires 0 <= i < |items| =>
        if items[i].Undef? || items[i].Null? then "" else ToStr(items[i])), ",")
    case Obj(_) => "[object Object]"
    case DV(_) => "[object Object]"
  }

  /** The keys an object value owns: the entries of an object, the two fields of a wrapper. */
  function OwnKeys(v: Value): seq<string> {
    match v
    case Obj(es) => Assoc.Keys(es)
    case DV(_) => ["value", "description"]
    case _ => []
  }

  /** `v[key]`: reading a property of `undefined` or `null` throws; a missing property reads as `undefined`. */
  function Property(v: Value, key: string): (r: Result<Value, Error>)
    ensures r.Failure? <==> v.Undef? || v.Null?
    ensures v.Obj? ==> (r == Success(Undef) <== key !in OwnKeys(v))
  {
    match v
    case Undef => Failure(TypeError("Cannot read properties of undefined"))
    case Null => Failure(TypeError("Cannot read properties of null"))
    case Obj(es) => Success(Assoc.Get(es, key).GetOr(Undef))
    case DV(d) =>
      Success(if key == "value" then d.value else if key == "description" then d.description else Undef)
    case Arr(items) =>
      Success(if key == "length" then Num(|items|) else Undef)
    case _ => Success(Undef)
  }

  /** Whether `v` can have properties read without a check: an array, an object or a wrapper. */
  predicate IsObjectLike(v: Value) {
    v.Arr? || v.Obj? || v.DV?
  }

  /** `v[key]` on a value known to be object-like. */
  function Field(v: Value, key: string): (r: Value)
    requires IsObjectLike(v)
    ensures Success(r) == Property(v, key)
  {
    Property(v, key).value
  }

  /**
   * The own enumerable properties `for…in` and `Object.assign` visit: an object's entries, an
   * array's indices, a wrapper's two fields, and nothing for any other value.
   */
  function OwnEntries(v: Value): (r: seq<(string, Value)>)
    ensures v.Obj? ==> r == v.entries
    ensures v.Arr? ==> |r| == |v.items| && forall i :: 0 <= i < |r| ==> r[i] == (NatToString(i), v.items[i])
    ensures !IsObjectLike(v) ==> r == []
  {
    match v
    case Obj(es) => es
    case Arr(items) => seq(|items|, i requires 0 <= i < |items| => (NatToString(i), items[i]))
    case DV(d) => [("value", d.value), ("description", d.description)]
    case _ => []
  }

  /** Whether `key` is an array index of a list of length `n`. */
  predicate IsIndexKey(key: string, n: nat) {
    exists i: nat :: i < n && NatToString(i) == key
  }

  /** `key in v`: throws on a primitive; otherwise whether `v` has the property. */
  function HasProperty(v: Value, key: string): (r: Result<bool, Error>)
    ensures r.Failure? <==> !(v.Arr? || v.Obj? || v.DV?)
    ensures v.Obj? && r.Success? ==> (r.value <==> key in OwnKeys(v))
  {
    match v
    case Obj(es) => Success(key in Assoc.Keys(es))
    case DV(_) => Success(key in OwnKeys(v))
    case Arr(items) => Success(key == "length" || IsIndexKey(key, |items|))
    case _ => Failure(TypeError("Cannot use 'in' operator to search for '" + key + "'"))
  }
}
