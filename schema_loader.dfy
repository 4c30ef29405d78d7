/**
 * The schema registry of src/core/schema.js: `Schema` objects bound to a `SchemaLoader`, the
 * loader's `$id → Schema` table, and `SchemaLoader.load`, which registers a root definition and
 * then every definition its `$ref`s reach, transitively.
 *
 * Module resolution is a parameter: `library[(dir, ref)]` is what loading `ref` from directory
 * `dir` yields, and a missing key is a module that cannot be loaded.
 */
module SchemaRegistry {
  import opened Wrappers
  import opened JsString
  import opened JsValue
  import Schemas
  import Seqs

  /** The directory of schemas shipped with the package, searched after the caller's directories. */
  const BUILTIN_DIR := "../schema/"

  class Schema {
    const loader: SchemaLoader
    const def: Value

    constructor (loader: SchemaLoader, def: Value)
      requires IsTypeofObject(def)
      ensures this.loader == loader && this.def == def
    {
      this.loader := loader;
      this.def := def;
    }

    /** `new Schema(loader, def)`, with the constructor's two checks. */
    static method Create(loader: SchemaLoader?, def: Value) returns (r: Result<Schema, Error>)
      ensures loader == null ==> r == Failure(Thrown("loader must be an instance of SchemaLoader"))
      ensures loader != null && !IsTypeofObject(def) ==> r == Failure(Thrown("schema definition must be an object"))
      ensures r.Success? <==> loader != null && IsTypeofObject(def)
      ensures r.Success? ==> fresh(r.value) && r.value.loader == loader && r.value.def == def
    {
      if loader == null {
        return Failure(Thrown("loader must be an instance of SchemaLoader"));
      }
      if !IsTypeofObject(def) {
        return Failure(Thrown("schema definition must be an object"));
      }
      var s := new Schema(loader, def);
      return Success(s);
    }

    /** `getDefaultValue(d)`, resolving `$ref`s through the loader's current registry. */
    method GetDefaultValue(d: Value, fuel: nat) returns (r: Schemas.Outcome)
      ensures r == Schemas.GetDefault(loader.Defs(), def, d, fuel)
    {
      r := Schemas.GetDefault(loader.Defs(), def, d, fuel);
    }
  }

  /**
   * The values `traverseObj(v, '$ref', handler)` hands to the handler, in order: every `$ref`
   * property's value, without looking inside it, and what the other properties and the array
   * elements contain.
   */
  function Refs(v: Value): seq<Value>
    decreases v, 1
  {
    match v
    case Arr(items) => ItemRefs(v, |items|)
    case Obj(es) => EntryRefs(v, |es|)
    case DV(d) => Refs(d.value) + Refs(d.description)
    case _ => []
  }

  function ItemRefs(v: Value, n: nat): seq<Value>
    requires v.Arr? && n <= |v.items|
    decreases v, 0, n
  {
    if n == 0 then [] else ItemRefs(v, n - 1) + Refs(v.items[n - 1])
  }

  function EntryRefs(v: Value, n: nat): seq<Value>
    requires v.Obj? && n <= |v.entries|
    decreases v, 0, n
  {
    if n == 0 then []
    else
      var e := v.entries[n - 1];
      EntryRefs(v, n - 1) + (if e.0 == "$ref" then [e.1] else Refs(e.1))
  }

  /** The `$ref` value is handed over whole: whatever it holds is not scanned. */
  lemma RefNotScanned(x: Value)
    ensures Refs(Obj([("$ref", x)])) == [x]
  {
    var v := Obj([("$ref", x)]);
    assert EntryRefs(v, 0) == [];
  }

  /** Properties after a `$ref` are still scanned, in order. */
  lemma RefThenSibling(x: Value, key: string, y: Value)
    requires key != "$ref"
    ensures Refs(Obj([("$ref", x), (key, Obj([("$ref", y)]))])) == [x, y]
  {
    var v := Obj([("$ref", x), (key, Obj([("$ref", y)]))]);
    assert EntryRefs(v, 0) == [];
    assert EntryRefs(v, 1) == [x];
    RefNotScanned(y);
  }

  /** Every reference in the first `i` elements of an array is registered. */
  predicate ItemsScanned(obj: Value, i: nat, m: map<string, Schema>)
    requires obj.Arr? && i <= |obj.items|
  {
    AllRegistered(ItemRefs(obj, i), m)
  }

  /** Every reference the first `i` keys of an object hand over or contain is registered. */
  predicate EntriesScanned(obj: Value, i: nat, m: map<string, Schema>)
    requires obj.Obj? && i <= |obj.entries|
  {
    AllRegistered(EntryRefs(obj, i), m)
  }

  /** Once every element is scanned, every reference of the array is registered. */
  lemma ItemsDone(obj: Value, m: map<string, Schema>)
    requires obj.Arr? && ItemsScanned(obj, |obj.items|, m)
    ensures AllRegistered(Refs(obj), m)
  {
  }

  /** Once every key is visited, every reference of the object is registered. */
  lemma EntriesDone(obj: Value, m: map<string, Schema>)
    requires obj.Obj? && EntriesScanned(obj, |obj.entries|, m)
    ensures AllRegistered(Refs(obj), m)
  {
  }

  /** Every reference is a registered id. */
  predicate AllRegistered(refs: seq<Value>, m: map<string, Schema>) {
    forall x {:trigger x in refs} :: x in refs ==> x.Str? && x.s in m
  }

  /** A single registered id. */
  lemma RegisteredOne(x: Value, m: map<string, Schema>)
    requires x.Str? && x.s in m
    ensures AllRegistered([x], m)
  {
  }

  /** Every reference of the definition registered under `id` is a registered id. */
  predicate Closed(m: map<string, Schema>, id: string)
    requires id in m
  {
    AllRegistered(Refs(m[id].def), m)
  }

  /** Every id added since `start` came from the first matching library module and is bound to `loader`. */
  predicate FromLibrary(m: map<string, Schema>, start: map<string, Schema>, dirs: seq<string>,
                        library: map<(string, string), Value>, loader: SchemaLoader)
  {
    forall id {:trigger m[id]} :: id in m && id !in start ==>
      FirstMatch(library, dirs, id) == Success(Some(m[id].def)) && m[id].loader == loader
  }

  /** Every id added since `start` is closed. */
  predicate AddedClosed(m: map<string, Schema>, start: map<string, Schema>) {
    forall id {:trigger Closed(m, id)} :: id in m && id !in start ==> Closed(m, id)
  }

  /** `m` keeps every entry of `before`. */
  predicate Extends(m: map<string, Schema>, before: map<string, Schema>) {
    before.Keys <= m.Keys && forall id :: id in before ==> m[id] == before[id]
  }

  /** Every reference is a string naming an id of `ids`. */
  predicate RefsIn(refs: seq<Value>, ids: set<string>) {
    forall x {:trigger x in refs} :: x in refs ==> x.Str? && x.s in ids
  }

  /**
   * Loading cannot fail inside `ids`: each of them is registered already, or the directory
   * search finds a module for it whose own references stay inside `ids`. The ids reachable from
   * a root whose every reference resolves form such a set.
   */
  predicate Resolvable(ids: set<string>, registered: set<string>, dirs: seq<string>,
                       library: map<(string, string), Value>)
  {
    forall id :: id in ids && id !in registered ==>
      var found := FirstMatch(library, dirs, id);
      found.Success? && found.value.Some? && RefsIn(Refs(found.value.value), ids)
  }

  /** References in two runs lie in a set exactly when each run's do. */
  lemma RefsInConcat(a: seq<Value>, b: seq<Value>, ids: set<string>)
    ensures RefsIn(a + b, ids) <==> RefsIn(a, ids) && RefsIn(b, ids)
  {
    if RefsIn(a + b, ids) {
      forall x | x in a ensures x.Str? && x.s in ids {
        assert x in a + b;
      }
      forall x | x in b ensures x.Str? && x.s in ids {
        assert x in a + b;
      }
    }
  }

  /** Registering more ids keeps a set resolvable. */
  lemma ResolvableGrows(ids: set<string>, r1: set<string>, r2: set<string>, dirs: seq<string>,
                        library: map<(string, string), Value>)
    requires r1 <= r2
    ensures Resolvable(ids, r1, dirs, library) ==> Resolvable(ids, r2, dirs, library)
  {
  }

  /** An element whose scan cannot be shown to succeed leaves the whole array in the same case. */
  lemma ItemBlocked(obj: Value, i: nat, reach: set<string>, start: set<string>, before: set<string>,
                    dirs: seq<string>, library: map<(string, string), Value>)
    requires obj.Arr? && i < |obj.items| && start <= before
    requires !(Resolvable(reach, before, dirs, library) && RefsIn(Refs(obj.items[i]), reach))
    ensures !(Resolvable(reach, start, dirs, library) && RefsIn(Refs(obj), reach))
  {
    ResolvableGrows(reach, start, before, dirs, library);
    ItemRefsIn(obj, |obj.items|, i, reach);
  }

  /** A key whose visit cannot be shown to succeed leaves the whole object in the same case. */
  lemma EntryBlocked(obj: Value, i: nat, reach: set<string>, start: set<string>, before: set<string>,
                     dirs: seq<string>, library: map<(string, string), Value>)
    requires obj.Obj? && i < |obj.entries| && start <= before
    requires var e := obj.entries[i];
      !(Resolvable(reach, before, dirs, library) && RefsIn(if e.0 == "$ref" then [e.1] else Refs(e.1), reach))
    ensures !(Resolvable(reach, start, dirs, library) && RefsIn(Refs(obj), reach))
  {
    ResolvableGrows(reach, start, before, dirs, library);
    EntryRefsIn(obj, |obj.entries|, i, reach);
  }

  /** The references of element `i` are among those of the first `n` elements. */
  lemma ItemRefsIn(obj: Value, n: nat, i: nat, ids: set<string>)
    requires obj.Arr? && i < n <= |obj.items|
    ensures RefsIn(ItemRefs(obj, n), ids) ==> RefsIn(Refs(obj.items[i]), ids)
    decreases n
  {
    RefsInConcat(ItemRefs(obj, n - 1), Refs(obj.items[n - 1]), ids);
    if i < n - 1 {
      ItemRefsIn(obj, n - 1, i, ids);
    }
  }

  /** What key `i` hands over or contains is among what the first `n` keys do. */
  lemma EntryRefsIn(obj: Value, n: nat, i: nat, ids: set<string>)
    requires obj.Obj? && i < n <= |obj.entries|
    ensures RefsIn(EntryRefs(obj, n), ids) ==>
      var e := obj.entries[i]; RefsIn(if e.0 == "$ref" then [e.1] else Refs(e.1), ids)
    decreases n
  {
    var e := obj.entries[n - 1];
    RefsInConcat(EntryRefs(obj, n - 1), if e.0 == "$ref" then [e.1] else Refs(e.1), ids);
    if i < n - 1 {
      EntryRefsIn(obj, n - 1, i, ids);
    }
  }

  /**
   * The module the `for (const dir of resolveDirs)` loop settles on for `ref`: the first one that
   * loads, is an object and has `$id` equal to `ref`; a `null` module throws on reading `$id`.
   */
  function FirstMatch(library: map<(string, string), Value>, dirs: seq<string>, ref: string)
    : (r: Result<Option<Value>, Error>)
    ensures r.Success? && r.value.Some? ==>
      r.value.value.Obj? && Field(r.value.value, "$id") == Str(ref)
      && exists dir :: dir in dirs && (dir, ref) in library && library[(dir, ref)] == r.value.value
  {
    if |dirs| == 0 then Success(None)
    else if (dirs[0], ref) !in library then FirstMatch(library, dirs[1..], ref)
    else
      var m := library[(dirs[0], ref)];
      if !IsTypeofObject(m) then FirstMatch(library, dirs[1..], ref)
      else if m.Null? then Failure(TypeError("Cannot read properties of null (reading '$id')"))
      else if Field(m, "$id") != Str(ref) then FirstMatch(library, dirs[1..], ref)
      else Success(Some(m))
  }

  /** Whether the search passes over the module `dir` has for `ref`, or over its absence. */
  predicate PassesOver(library: map<(string, string), Value>, dir: string, ref: string) {
    (dir, ref) !in library || !IsTypeofObject(library[(dir, ref)])
    || (!library[(dir, ref)].Null? && Field(library[(dir, ref)], "$id") != Str(ref))
  }

  /** The search passes over a directory without a matching module and goes on after it. */
  lemma FirstMatchSkip(library: map<(string, string), Value>, dirs: seq<string>, i: nat, ref: string)
    requires i < |dirs| && PassesOver(library, dirs[i], ref)
    ensures FirstMatch(library, dirs[i..], ref) == FirstMatch(library, dirs[i + 1..], ref)
  {
    Seqs.SuffixShrink(dirs, i);
  }

  /** The search stops at a directory whose module is `null` (an error) or matches (found). */
  lemma FirstMatchStop(library: map<(string, string), Value>, dirs: seq<string>, i: nat, ref: string)
    requires i < |dirs| && (dirs[i], ref) in library && !PassesOver(library, dirs[i], ref)
    ensures var m := library[(dirs[i], ref)];
      FirstMatch(library, dirs[i..], ref) ==
        if m.Null? then Failure(TypeError("Cannot read properties of null (reading '$id')")) else Success(Some(m))
  {
    Seqs.SuffixShrink(dirs, i);
  }

  /** The ids some directory of the library can provide. */
  function LibraryIds(library: map<(string, string), Value>): set<string> {
    set key | key in library :: key.1
  }

  lemma SubsetCard<T>(a: set<T>, b: set<T>)
    requires a <= b
    ensures |a| <= |b|
    decreases |a|
  {
    if a != {} {
      var x :| x in a;
      SubsetCard(a - {x}, b - {x});
    }
  }

  /** Registering more ids never leaves more library ids to load. */
  lemma PendingMonotone(lib: set<string>, k1: set<string>, k2: set<string>)
    requires k1 <= k2
    ensures |lib - k2| <= |lib - k1|
  {
    SubsetCard(lib - k2, lib - k1);
  }

  /** Registering a library id that was not registered leaves one fewer to load. */
  lemma PendingShrinks(lib: set<string>, k1: set<string>, k2: set<string>, x: string)
    requires k1 <= k2 && x in lib && x !in k1 && x in k2
    ensures |lib - k2| < |lib - k1|
  {
    PendingMonotone(lib, k1 + {x}, k2);
    assert lib - k1 == (lib - (k1 + {x})) + {x};
  }

  /** The message of Ajv's error for an id it already holds. */
  function DuplicateId(id: string): string {
    "schema with key or id \"" + id + "\" already exists"
  }

  class SchemaLoader {
    var schemas: map<string, Schema>

    constructor ()
      ensures schemas == map[]
    {
      schemas := map[];
    }

    /** Each registered id's definition. */
    function Defs(): (r: map<string, Value>)
      reads this
      ensures r.Keys == schemas.Keys && forall id :: id in r ==> r[id] == schemas[id].def
    {
      map id | id in schemas :: schemas[id].def
    }

    /** `getSchema(id)`: the registered schema, or nothing. */
    function GetSchema(id: string): (r: Option<Schema>)
      reads this
      ensures r.Some? <==> id in schemas
      ensures r.Some? ==> r.value == schemas[id]
    {
      if id in schemas then Some(schemas[id]) else None
    }

    /**
     * `addSchema(def)`: registers `def` under its own `$id`. `ajv.addSchema` runs before the
     * registry is written and throws on an id it already holds, so a duplicate changes nothing.
     */
    method AddSchema(def: Value) returns (r: Result<(), Error>)
      modifies this
      ensures def.Undef? || def.Null? ==> r == Failure(TypeError("Cannot convert undefined or null to object"))
      ensures !(def.Undef? || def.Null?) && "$id" !in OwnKeys(def) ==>
        r == Failure(Thrown("The schema definition does not have an $id field"))
      ensures "$id" in OwnKeys(def) && ToStr(Field(def, "$id")) in old(schemas) ==>
        r == Failure(Thrown(DuplicateId(ToStr(Field(def, "$id")))))
      ensures r.Success? <==> "$id" in OwnKeys(def) && ToStr(Field(def, "$id")) !in old(schemas)
      ensures r.Failure? ==> schemas == old(schemas)
      ensures r.Success? ==>
        var id := ToStr(Field(def, "$id"));
        schemas.Keys == old(schemas).Keys + {id} && fresh(schemas[id]) && schemas[id].def == def
        && schemas[id].loader == this && forall k :: k in old(schemas) ==> schemas[k] == old(schemas)[k]
    {
      if def.Undef? || def.Null? {
        return Failure(TypeError("Cannot convert undefined or null to object"));
      }
      if "$id" !in OwnKeys(def) {
        return Failure(Thrown("The schema definition does not have an $id field"));
      }
      var id := ToStr(Field(def, "$id"));
      if id in schemas {
        return Failure(Thrown(DuplicateId(id)));
      }
      var s := new Schema(this, def);
      schemas := schemas[id := s];
      return Success(());
    }

    /** `removeSchema(id)`. */
    method RemoveSchema(id: string)
      modifies this
      ensures schemas == old(schemas) - {id}
    {
      schemas := schemas - {id};
    }

    /** How many ids the library could still add. */
    function Pending(library: map<(string, string), Value>): nat
      reads this
    {
      |LibraryIds(library) - schemas.Keys|
    }

    /**
     * The `handler` of `SchemaLoader.load`: a string reference that is not registered is loaded
     * from the first directory that has it, registered, and scanned in turn.
     */
    method Resolve(ref: Value, dirs: seq<string>, library: map<(string, string), Value>, ghost reach: set<string>)
      returns (r: Result<(), Error>)
      modifies this
      ensures Resolvable(reach, old(schemas).Keys, dirs, library) && ref.Str? && ref.s in reach ==> r.Success?
      ensures Extends(schemas, old(schemas)) && Pending(library) <= old(Pending(library))
      ensures FromLibrary(schemas, old(schemas), dirs, library, this)
      ensures r.Success? ==> ref.Str? && ref.s in schemas && AddedClosed(schemas, old(schemas))
      ensures !ref.Str? ==> r == Failure(InvalidReference(ref)) && schemas == old(schemas)
      ensures ref.Str? && ref.s in old(schemas) ==> r == Success(()) && schemas == old(schemas)
      ensures ref.Str? && ref.s !in old(schemas) && FirstMatch(library, dirs, ref.s).Failure? ==>
        r == Failure(FirstMatch(library, dirs, ref.s).error) && schemas == old(schemas)
      ensures ref.Str? && ref.s !in old(schemas) && FirstMatch(library, dirs, ref.s) == Success(None) ==>
        r == Failure(Thrown("Cannot find schema definition " + ref.s
          + ".\nPlease check if the file exists and its $id is correct")) && schemas == old(schemas)
      decreases Pending(library), 0, 1
    {
      if !ref.Str? {
        return Failure(InvalidReference(ref));
      }
      var id := ref.s;
      if GetSchema(id).Some? {
        return Success(());
      }
      var found := FindModule(id, dirs, library);
      if found.Failure? {
        return Failure(found.error);
      }
      if found.value.None? {
        return Failure(Thrown("Cannot find schema definition " + id
          + ".\nPlease check if the file exists and its $id is correct"));
      }
      r := Register(id, found.value.value, dirs, library, reach);
    }

    /**
     * The `for (const dir of resolveDirs)` loop of the handler up to the module it settles on;
     * what it then does with that module is `Register`.
     */
    static method FindModule(id: string, dirs: seq<string>, library: map<(string, string), Value>)
      returns (r: Result<Option<Value>, Error>)
      ensures r == FirstMatch(library, dirs, id)
    {
      var i := 0;
      while i < |dirs|
        invariant 0 <= i <= |dirs|
        invariant FirstMatch(library, dirs, id) == FirstMatch(library, dirs[i..], id)
      {
        if (dirs[i], id) !in library {
          FirstMatchSkip(library, dirs, i, id);
          i := i + 1;
          continue;
        }
        var def := library[(dirs[i], id)];
        if !IsTypeofObject(def) {
          FirstMatchSkip(library, dirs, i, id);
          i := i + 1;
          continue;
        }
        if def.Null? {
          FirstMatchStop(library, dirs, i, id);
          return Failure(TypeError("Cannot read properties of null (reading '$id')"));
        }
        if Field(def, "$id") != Str(id) {
          FirstMatchSkip(library, dirs, i, id);
          i := i + 1;
          continue;
        }
        FirstMatchStop(library, dirs, i, id);
        return Success(Some(def));
      }
      return Success(None);
    }

    /** `loader.addSchema(def)` and `traverseObj(def, '$ref', handler)` for the module found for `id`. */
    method Register(id: string, def: Value, dirs: seq<string>, library: map<(string, string), Value>,
                    ghost reach: set<string>)
      returns (r: Result<(), Error>)
      requires id !in schemas && FirstMatch(library, dirs, id) == Success(Some(def))
      modifies this
      ensures Resolvable(reach, old(schemas).Keys, dirs, library) && RefsIn(Refs(def), reach) ==> r.Success?
      ensures Extends(schemas, old(schemas)) && Pending(library) <= old(Pending(library))
      ensures FromLibrary(schemas, old(schemas), dirs, library, this)
      ensures r.Success? ==> id in schemas && AddedClosed(schemas, old(schemas))
      decreases Pending(library), 0, 0
    {
      var dir :| dir in dirs && (dir, id) in library && library[(dir, id)] == def;
      assert id in LibraryIds(library);
      ghost var before := schemas;
      var added := AddSchema(def);
      assert added.Success?;
      PendingShrinks(LibraryIds(library), before.Keys, schemas.Keys, id);
      ghost var registered := schemas;
      ResolvableGrows(reach, before.Keys, registered.Keys, dirs, library);
      r := Traverse(def, dirs, library, reach);
      PendingMonotone(LibraryIds(library), before.Keys, schemas.Keys);
      assert schemas[id] == registered[id];
    }

    /** `traverseObj(obj, '$ref', handler)`: the handler applied to each of `Refs(obj)`, stopping at the first error. */
    method Traverse(obj: Value, dirs: seq<string>, library: map<(string, string), Value>, ghost reach: set<string>)
      returns (r: Result<(), Error>)
      modifies this
      ensures Resolvable(reach, old(schemas).Keys, dirs, library) && RefsIn(Refs(obj), reach) ==> r.Success?
      ensures Extends(schemas, old(schemas)) && Pending(library) <= old(Pending(library))
      ensures FromLibrary(schemas, old(schemas), dirs, library, this)
      ensures r.Success? ==> AllRegistered(Refs(obj), schemas) && AddedClosed(schemas, old(schemas))
      decreases Pending(library), 1, obj, 2
    {
      match obj
      case Arr(_) =>
        r := TraverseItems(obj, dirs, library, reach);
        if r.Success? {
          ItemsDone(obj, schemas);
        }
      case Obj(_) =>
        r := TraverseEntries(obj, dirs, library, reach);
        if r.Success? {
          EntriesDone(obj, schemas);
        }
      case DV(d) =>
        ghost var start := schemas;
        RefsInConcat(Refs(d.value), Refs(d.description), reach);
        r := Traverse(d.value, dirs, library, reach);
        if r.Success? {
          ghost var before := schemas;
          ResolvableGrows(reach, start.Keys, before.Keys, dirs, library);
          r := Traverse(d.description, dirs, library, reach);
          Chain(start, before, schemas, dirs, library, this);
          if r.Success? {
            ChainClosed(start, before, schemas, Refs(d.value), Refs(d.description));
          }
        }
      case _ =>
        r := Success(());
    }

    /** The `for…of` over an array's elements. */
    method TraverseItems(obj: Value, dirs: seq<string>, library: map<(string, string), Value>, ghost reach: set<string>)
      returns (r: Result<(), Error>)
      requires obj.Arr?
      modifies this
      ensures Resolvable(reach, old(schemas).Keys, dirs, library) && RefsIn(Refs(obj), reach) ==> r.Success?
      ensures Extends(schemas, old(schemas)) && Pending(library) <= old(Pending(library))
      ensures FromLibrary(schemas, old(schemas), dirs, library, this)
      ensures r.Success? ==> ItemsScanned(obj, |obj.items|, schemas) && AddedClosed(schemas, old(schemas))
      decreases Pending(library), 1, obj, 1
    {
      var items := obj.items;
      ghost var start := schemas;
      var i := 0;
      while i < |items|
        invariant 0 <= i <= |items|
        invariant Extends(schemas, start) && Pending(library) <= old(Pending(library))
        invariant FromLibrary(schemas, start, dirs, library, this)
        invariant ItemsScanned(obj, i, schemas) && AddedClosed(schemas, start)
      {
        ghost var before := schemas;
        var c := VisitItem(obj, i, dirs, library, start, reach);
        if c.Failure? {
          ItemBlocked(obj, i, reach, start.Keys, before.Keys, dirs, library);
          return c;
        }
        i := i + 1;
      }
      return Success(());
    }

    /**
     * One element of the `for…of`, scanned in turn; `start` is the registry before the loop,
     * whose additions stay closed and from the library.
     */
    method VisitItem(obj: Value, i: nat, dirs: seq<string>, library: map<(string, string), Value>,
                     ghost start: map<string, Schema>, ghost reach: set<string>)
      returns (r: Result<(), Error>)
      requires obj.Arr? && i < |obj.items|
      requires Extends(schemas, start) && FromLibrary(schemas, start, dirs, library, this)
      requires ItemsScanned(obj, i, schemas) && AddedClosed(schemas, start)
      modifies this
      ensures Resolvable(reach, old(schemas).Keys, dirs, library) && RefsIn(Refs(obj.items[i]), reach) ==> r.Success?
      ensures Extends(schemas, start) && Pending(library) <= old(Pending(library))
      ensures FromLibrary(schemas, start, dirs, library, this)
      ensures r.Success? ==> ItemsScanned(obj, i + 1, schemas) && AddedClosed(schemas, start)
      decreases Pending(library), 1, obj, 0
    {
      ghost var before := schemas;
      r := Traverse(obj.items[i], dirs, library, reach);
      Chain(start, before, schemas, dirs, library, this);
      if r.Success? {
        ItemStep(start, before, schemas, obj, i);
      }
    }

    /** The `for…in` over an object's keys: a `$ref` goes to the handler, anything else is scanned. */
    method TraverseEntries(obj: Value, dirs: seq<string>, library: map<(string, string), Value>, ghost reach: set<string>)
      returns (r: Result<(), Error>)
      requires obj.Obj?
      modifies this
      ensures Resolvable(reach, old(schemas).Keys, dirs, library) && RefsIn(Refs(obj), reach) ==> r.Success?
      ensures Extends(schemas, old(schemas)) && Pending(library) <= old(Pending(library))
      ensures FromLibrary(schemas, old(schemas), dirs, library, this)
      ensures r.Success? ==> EntriesScanned(obj, |obj.entries|, schemas) && AddedClosed(schemas, old(schemas))
      decreases Pending(library), 1, obj, 1
    {
      var es := obj.entries;
      var i := 0;
      while i < |es|
        invariant 0 <= i <= |es|
        invariant Extends(schemas, old(schemas)) && Pending(library) <= old(Pending(library))
        invariant FromLibrary(schemas, old(schemas), dirs, library, this)
        invariant EntriesScanned(obj, i, schemas) && AddedClosed(schemas, old(schemas))
      {
        ghost var before := schemas;
        var c := VisitEntry(obj, i, dirs, library, old(schemas), reach);
        if c.Failure? {
          EntryBlocked(obj, i, reach, old(schemas).Keys, before.Keys, dirs, library);
          return c;
        }
        i := i + 1;
      }
      return Success(());
    }

    /**
     * One key of the `for…in`: a `$ref` value goes to the handler, any other value is scanned;
     * `start` is the registry before the loop.
     */
    method VisitEntry(obj: Value, i: nat, dirs: seq<string>, library: map<(string, string), Value>,
                      ghost start: map<string, Schema>, ghost reach: set<string>)
      returns (r: Result<(), Error>)
      requires obj.Obj? && i < |obj.entries|
      requires Extends(schemas, start) && FromLibrary(schemas, start, dirs, library, this)
      requires EntriesScanned(obj, i, schemas) && AddedClosed(schemas, start)
      modifies this
      ensures var e := obj.entries[i];
        (Resolvable(reach, old(schemas).Keys, dirs, library)
         && RefsIn(if e.0 == "$ref" then [e.1] else Refs(e.1), reach)) ==> r.Success?
      ensures Extends(schemas, start) && Pending(library) <= old(Pending(library))
      ensures FromLibrary(schemas, start, dirs, library, this)
      ensures r.Success? ==> EntriesScanned(obj, i + 1, schemas) && AddedClosed(schemas, start)
      decreases Pending(library), 1, obj, 0
    {
      ghost var before := schemas;
      var e := obj.entries[i];
      if e.0 == "$ref" {
        assert e.1 in [e.1];
        r := Resolve(e.1, dirs, library, reach);
        Chain(start, before, schemas, dirs, library, this);
        if r.Success? {
          RegisteredOne(e.1, schemas);
          EntryStep(start, before, schemas, obj, i);
        }
      } else {
        r := Traverse(e.1, dirs, library, reach);
        Chain(start, before, schemas, dirs, library, this);
        if r.Success? {
          EntryStep(start, before, schemas, obj, i);
        }
      }
    }

    /**
     * `SchemaLoader.load(root, dirs)`: a new loader holding `root` and every definition its
     * references reach; every reference of every registered definition is then registered.
     */
    static method Load(root: Value, dirs: seq<string>, library: map<(string, string), Value>,
                       ghost reach: set<string>)
      returns (r: Result<SchemaLoader, Error>)
      ensures "$id" !in OwnKeys(root) ==> r.Failure?
      ensures ("$id" in OwnKeys(root) && RefsIn(Refs(root), reach)
               && Resolvable(reach, {ToStr(Field(root, "$id"))}, dirs + [BUILTIN_DIR], library)) ==> r.Success?
      ensures r.Success? ==> fresh(r.value) && "$id" in OwnKeys(root)
      ensures r.Success? ==>
        var rootId := ToStr(Field(root, "$id"));
        rootId in r.value.schemas && r.value.schemas[rootId].def == root
        && FromLibrary(r.value.schemas, map[rootId := r.value.schemas[rootId]], dirs + [BUILTIN_DIR], library, r.value)
      ensures r.Success? ==> forall id :: id in r.value.schemas ==> Closed(r.value.schemas, id)
    {
      var resolveDirs := dirs + [BUILTIN_DIR];
      var loader := new SchemaLoader();
      var added := loader.AddSchema(root);
      if added.Failure? {
        return Failure(added.error);
      }
      var rootId := ToStr(Field(root, "$id"));
      ghost var registered := loader.schemas;
      assert registered == map[rootId := registered[rootId]];
      var scanned := loader.Traverse(root, resolveDirs, library, reach);
      if scanned.Failure? {
        return Failure(scanned.error);
      }
      assert loader.schemas[rootId] == registered[rootId];
      return Success(loader);
    }
  }

  /** Two scans in a row: every id either one added came from the library. */
  lemma Chain(start: map<string, Schema>, before: map<string, Schema>, after: map<string, Schema>,
              dirs: seq<string>, library: map<(string, string), Value>, loader: SchemaLoader)
    requires Extends(before, start) && Extends(after, before)
    requires FromLibrary(before, start, dirs, library, loader) && FromLibrary(after, before, dirs, library, loader)
    ensures Extends(after, start) && FromLibrary(after, start, dirs, library, loader)
  {
    forall id | id in after && id !in start
      ensures FirstMatch(library, dirs, id) == Success(Some(after[id].def)) && after[id].loader == loader
    {
      if id in before {
        assert after[id] == before[id];
      }
    }
  }

  /** Two successful scans in a row: both sets of references are registered and every added id is closed. */
  lemma ChainClosed(start: map<string, Schema>, before: map<string, Schema>, after: map<string, Schema>,
                    refs: seq<Value>, more: seq<Value>)
    requires Extends(before, start) && Extends(after, before)
    requires AllRegistered(refs, before) && AddedClosed(before, start)
    requires AllRegistered(more, after) && AddedClosed(after, before)
    ensures AllRegistered(refs + more, after) && AddedClosed(after, start)
  {
    forall id | id in after && id !in start ensures Closed(after, id) {
      if id in before {
        assert after[id] == before[id] && Closed(before, id);
      }
    }
  }

  /** One more element of an array scanned: its references join those of the elements before it. */
  lemma ItemStep(start: map<string, Schema>, before: map<string, Schema>, after: map<string, Schema>,
                 obj: Value, i: nat)
    requires obj.Arr? && i < |obj.items|
    requires Extends(before, start) && Extends(after, before)
    requires ItemsScanned(obj, i, before) && AddedClosed(before, start)
    requires AllRegistered(Refs(obj.items[i]), after) && AddedClosed(after, before)
    ensures ItemsScanned(obj, i + 1, after) && AddedClosed(after, start)
  {
    ChainClosed(start, before, after, ItemRefs(obj, i), Refs(obj.items[i]));
  }

  /** One more key of an object visited: what it hands over joins what the keys before it did. */
  lemma EntryStep(start: map<string, Schema>, before: map<string, Schema>, after: map<string, Schema>,
                  obj: Value, i: nat)
    requires obj.Obj? && i < |obj.entries|
    requires Extends(before, start) && Extends(after, before)
    requires EntriesScanned(obj, i, before) && AddedClosed(before, start)
    requires var e := obj.entries[i]; AllRegistered(if e.0 == "$ref" then [e.1] else Refs(e.1), after)
    requires AddedClosed(after, before)
    ensures EntriesScanned(obj, i + 1, after) && AddedClosed(after, start)
  {
    var e := obj.entries[i];
    ChainClosed(start, before, after, EntryRefs(obj, i), if e.0 == "$ref" then [e.1] else Refs(e.1));
  }
}
