/**
 * The two-step migration chain of fixture/migration (`v1_v2.js` to 2.0.0, `v2_v3.js` to 3.0.0)
 * replayed through the migration model.
 *
 * `deepmerge({}, config)` copies the configuration; values here are never shared, so the copy
 * is the configuration itself.
 */
module MigrationFixture {
  import opened Wrappers
  import opened JsString
  import opened JsValue
  import Assoc
  import opened Migrations

  const V1: Version := Version(1, 0, 0)
  const V2: Version := Version(2, 0, 0)
  const V3: Version := Version(3, 0, 0)

  /** `upgrade` of fixture/migration/v1_v2.js: sets `scalar`, `vector` and `useless`. */
  function UpgradeToV2(config: Config): Result<Config, Error>
  {
    Success(Assoc.Put(Assoc.Put(Assoc.Put(config, "scalar", Num(1)), "vector", Arr([Num(1)])), "useless", Bool(true)))
  }

  /** `upgrade` of fixture/migration/v2_v3.js: sets `scalar` and `vector`, deletes `useless`. */
  function UpgradeToV3(config: Config): Result<Config, Error>
  {
    Success(Assoc.Remove(Assoc.Put(Assoc.Put(config, "scalar", Num(2)), "vector", Arr([Num(1), Num(2)])), "useless"))
  }

  /** The two fixture classes. Both are anonymous class expressions, so their name is empty. */
  function ToV2(): MigrationClass {
    MigrationClass("", true, Str(VersionText(V2)), UpgradeToV2)
  }

  function ToV3(): MigrationClass {
    MigrationClass("", true, Str(VersionText(V3)), UpgradeToV3)
  }

  /** The classes the walk from the head (`v2_v3.js`) meets: itself, then its `head` `v1_v2.js`. */
  function Chain(): seq<MigrationClass> {
    [ToV3(), ToV2()]
  }

  function Table(): map<Version, MigrationClass> {
    map[V3 := ToV3()][V2 := ToV2()]
  }

  /** A two-class chain whose classes both pass the checks loads to their two versions. */
  lemma LoadTwo(a: MigrationClass, b: MigrationClass, va: Version, vb: Version)
    requires CheckClass(a) == Success(va) && CheckClass(b) == Success(vb)
    ensures Loaded([a, b]) == Success(([va, vb], map[va := a][vb := b]))
  {
    assert [a][..0] == [];
    assert [] + [va] == [va];
    assert Loaded([a]) == Success(([va], map[][va := a]));
    assert [a, b][..1] == [a];
    assert [va] + [vb] == [va, vb];
    assert map[][va := a] == map[va := a];
  }

  /** The chain loads, recording 3.0.0 then 2.0.0 and a class for each. */
  lemma ChainLoads()
    ensures Loaded(Chain()) == Success(([V3, V2], Table()))
  {
    ParseValueText(V3);
    ParseValueText(V2);
    LoadTwo(ToV3(), ToV2(), V3, V2);
  }

  /** The recorded versions, sorted: 2.0.0, then 3.0.0. */
  lemma VersionsSorted()
    ensures Sort([V3, V2]) == [V2, V3]
  {
    assert [V3, V2][1..] == [V2];
  }

  /** `new Migrator(head)` on the fixture chain. */
  method LoadFixture() returns (m: Migrator)
    ensures m.versions == [V2, V3] && m.migrations == Table() && m.Valid()
  {
    ChainLoads();
    VersionsSorted();
    var r := Migrator.Create(Chain());
    m := r.value;
  }

  lemma ThreeText()
    ensures VersionText(V3) == "3.0.0"
  {
  }

  /** The fixture migrator's latest version is 3.0.0; 1.0.0 is outdated and 3.0.0 is not. */
  lemma FixtureQueries(m: Migrator)
    requires m.versions == [V2, V3] && m.migrations == Table()
    ensures m.Valid()
    ensures m.GetLatestVersion() == Some("3.0.0")
    ensures m.IsOutdated(Str(VersionText(V1))) == Success(Some(true))
    ensures m.IsOutdated(Str(VersionText(V3))) == Success(Some(false))
  {
    ThreeText();
    ParseValueText(V1);
    ParseValueText(V3);
  }

  /** The configuration the fixture starts from: `{version: '1.0.0'}`. */
  function Initial(): Config {
    [("version", Str(VersionText(V1)))]
  }

  /** Writing the key of the first entry replaces that entry. */
  lemma PutHead(k: string, x: Value, rest: Config, v: Value)
    ensures Assoc.Put([(k, x)] + rest, k, v) == [(k, v)] + rest
  {
    assert ([(k, x)] + rest)[1..] == rest;
  }

  /** The 2.0.0 configuration. */
  function AtV2(): Config {
    [("version", Str(VersionText(V2))), ("scalar", Num(1)), ("vector", Arr([Num(1)])), ("useless", Bool(true))]
  }

  /** The keys the fixture upgrades write are different from each other and from `version`. */
  lemma FixtureKeys()
    ensures "scalar" != "version" && "vector" != "version" && "useless" != "version"
    ensures "vector" != "scalar" && "useless" != "scalar" && "useless" != "vector"
  {
    assert "scalar"[0] == 's' && "vector"[0] == 'v' && "useless"[0] == 'u' && "version"[1] == 'e' && "vector"[1] == 'e';
    assert "vector"[2] == 'c' && "version"[2] == 'r';
  }

  /** Ways of writing a short list. */
  lemma Shapes<T>(a: T, b: T, c: T, d: T)
    ensures [a] + [b] + [c] + [d] == [a] + [b, c, d] == [a, b, c, d]
    ensures [a] + ([b] + ([c] + [d])) == [a, b, c, d]
    ensures [a] + ([b] + ([c] + [])) == [a] + [b, c]
    ensures [a] + [b, c] == [a, b, c]
  {
  }

  /** Writing a key other than the first entry's leaves that entry in front. */
  lemma PutPast(e: (string, Value), m: Config, k: string, v: Value)
    requires e.0 != k
    ensures Assoc.Put([e] + m, k, v) == [e] + Assoc.Put(m, k, v)
  {
    Assoc.Cons(e, m);
  }

  /** Deleting a key other than the first entry's leaves that entry in front. */
  lemma RemovePast(e: (string, Value), m: Config, k: string)
    requires e.0 != k
    ensures Assoc.Remove([e] + m, k) == [e] + Assoc.Remove(m, k)
  {
    Assoc.Cons(e, m);
  }

  /** Deleting the only entry's key leaves nothing. */
  lemma RemoveOnly(k: string, x: Value)
    ensures Assoc.Remove([(k, x)], k) == []
  {
  }

  /** What `v1_v2.js`'s upgrade makes of a configuration holding only its version: three keys appended. */
  lemma UpgradeInitial(ver: Value)
    ensures UpgradeToV2([("version", ver)])
         == Success([("version", ver)] + [("scalar", Num(1)), ("vector", Arr([Num(1)])), ("useless", Bool(true))])
  {
    FixtureKeys();
    var c0 := [("version", ver)];
    var c1 := c0 + [("scalar", Num(1))];
    var c2 := c1 + [("vector", Arr([Num(1)]))];
    assert Assoc.Keys(c0) == ["version"];
    Assoc.PutFresh(c0, "scalar", Num(1));
    Assoc.KeysAppend(c0, ("scalar", Num(1)));
    Assoc.PutFresh(c1, "vector", Arr([Num(1)]));
    Assoc.KeysAppend(c1, ("vector", Arr([Num(1)])));
    Assoc.PutFresh(c2, "useless", Bool(true));
    assert UpgradeToV2(c0) == Success(c2 + [("useless", Bool(true))]);
    Shapes(("version", ver), ("scalar", Num(1)), ("vector", Arr([Num(1)])), ("useless", Bool(true)));
  }

  /** Stamping a configuration that starts with its version replaces that first entry. */
  lemma Stamp(m: MigrationClass, config: Config, first: (string, Value), rest: Config, v: Version)
    requires m.version == Str(VersionText(v)) && m.upgrade(config) == Success([first] + rest)
    requires first.0 == "version"
    ensures MigrateStep(m, config) == Success([("version", Str(VersionText(v)))] + rest)
  {
    PutHead("version", first.1, rest, Str(VersionText(v)));
  }

  /** The 2.0.0 step: its upgrade appends three keys, then the version is overwritten in place. */
  lemma StepToV2()
    ensures MigrateStep(ToV2(), Initial()) == Success(AtV2())
  {
    var one := Str(VersionText(V1));
    UpgradeInitial(one);
    var rest := [("scalar", Num(1)), ("vector", Arr([Num(1)])), ("useless", Bool(true))];
    Stamp(ToV2(), Initial(), ("version", one), rest, V2);
    Shapes(("version", Str(VersionText(V2))), ("scalar", Num(1)), ("vector", Arr([Num(1)])), ("useless", Bool(true)));
  }

  /** The 3.0.0 configuration. */
  function AtV3(): Config {
    [("version", Str(VersionText(V3))), ("scalar", Num(2)), ("vector", Arr([Num(1), Num(2)]))]
  }

  /** What `v2_v3.js`'s upgrade makes of a 2.0.0 configuration: two keys overwritten, `useless` deleted. */
  lemma UpgradeAtV2(ver: Value, a: Value, b: Value, c: Value)
    ensures UpgradeToV3([("version", ver), ("scalar", a), ("vector", b), ("useless", c)])
         == Success([("version", ver)] + [("scalar", Num(2)), ("vector", Arr([Num(1), Num(2)]))])
  {
    FixtureKeys();
    var e := ("version", ver);
    var v12 := Arr([Num(1), Num(2)]);
    var tail: Config := [("useless", c)];
    Shapes(e, ("scalar", a), ("vector", b), ("useless", c));
    PutPast(e, [("scalar", a)] + ([("vector", b)] + tail), "scalar", Num(2));
    PutHead("scalar", a, [("vector", b)] + tail, Num(2));
    var c1 := [e] + ([("scalar", Num(2))] + ([("vector", b)] + tail));
    PutPast(e, [("scalar", Num(2))] + ([("vector", b)] + tail), "vector", v12);
    PutPast(("scalar", Num(2)), [("vector", b)] + tail, "vector", v12);
    PutHead("vector", b, tail, v12);
    var c2 := [e] + ([("scalar", Num(2))] + ([("vector", v12)] + tail));
    assert Assoc.Put(c1, "vector", v12) == c2;
    RemovePast(e, [("scalar", Num(2))] + ([("vector", v12)] + tail), "useless");
    RemovePast(("scalar", Num(2)), [("vector", v12)] + tail, "useless");
    RemovePast(("vector", v12), tail, "useless");
    RemoveOnly("useless", c);
    Shapes(e, ("scalar", Num(2)), ("vector", v12), ("useless", c));
  }

  /** The 3.0.0 step. */
  lemma StepToV3()
    ensures MigrateStep(ToV3(), AtV2()) == Success(AtV3())
  {
    var two := Str(VersionText(V2));
    UpgradeAtV2(two, Num(1), Arr([Num(1)]), Bool(true));
    var rest := [("scalar", Num(2)), ("vector", Arr([Num(1), Num(2)]))];
    Stamp(ToV3(), AtV2(), ("version", two), rest, V3);
    Shapes(("version", Str(VersionText(V3))), ("scalar", Num(2)), ("vector", Arr([Num(1), Num(2)])), ("useless", Bool(true)));
  }

  /** The fixture table holds each class under the version it sets. */
  lemma TableFacts()
    ensures Sorted([V2, V3]) && TableOk(Table())
    ensures forall v :: v in [V2, V3] ==> v in Table()
    ensures Table()[V2] == ToV2() && Table()[V3] == ToV3()
  {
    assert forall v :: v in Table() <==> v == V2 || v == V3;
  }

  /** A run of two steps that both succeed: the second step's result, and one callback call per step. */
  lemma ApplyTwo(t: map<Version, MigrationClass>, config: Config, a: Version, b: Version, mid: Config, last: Config)
    requires a in t && b in t
    requires MigrateStep(t[a], config) == Success(mid) && MigrateStep(t[b], mid) == Success(last)
    ensures Apply(t, config, [a, b], true)
         == Success((last, [(Assoc.Get(config, "version").GetOr(Undef), t[a].version),
                            (Assoc.Get(mid, "version").GetOr(Undef), t[b].version)]))
  {
    ApplyOne(t, mid, b, last);
    assert forall v :: v in [a, b] ==> v == a || v == b;
    ApplyFirst(t, config, [a, b], true);
    assert [a, b][1..] == [b];
    var first := (Assoc.Get(config, "version").GetOr(Undef), t[a].version);
    var second := (Assoc.Get(mid, "version").GetOr(Undef), t[b].version);
    assert [first] + [second] == [first, second];
  }

  /** A run of one step that succeeds. */
  lemma ApplyOne(t: map<Version, MigrationClass>, config: Config, a: Version, last: Config)
    requires a in t && MigrateStep(t[a], config) == Success(last)
    ensures Apply(t, config, [a], true) == Success((last, [(Assoc.Get(config, "version").GetOr(Undef), t[a].version)]))
  {
    ApplyFirst(t, config, [a], true);
    assert [a][1..] == [];
    var call := [(Assoc.Get(config, "version").GetOr(Undef), t[a].version)];
    assert call + [] == call;
  }

  /** The versions after 1.0.0 up to 3.0.0 are both recorded ones. */
  lemma FullSelect()
    ensures Select([V2, V3], V1, V3) == [V2, V3]
  {
    assert [V2, V3][1..] == [V3];
    assert [V3][1..] == [];
  }

  /** The only recorded version after 1.0.0 up to 2.1.0 is 2.0.0. */
  lemma PartialSelect()
    ensures Select([V2, V3], V1, Version(2, 1, 0)) == [V2]
  {
    assert [V2, V3][1..] == [V3];
    assert [V3][1..] == [];
  }

  /** Without a target the latest version, 3.0.0, is the target; 2.1.0 given is the target. */
  lemma Targets()
    ensures Target([V2, V3], Null) == Str(VersionText(V3))
    ensures Target([V2, V3], Str(VersionText(Version(2, 1, 0)))) == Str(VersionText(Version(2, 1, 0)))
  {
    assert |VersionText(Version(2, 1, 0))| > 0;
  }

  /** The 1.0.0 and 2.0.0 configurations carry their versions. */
  lemma VersionsOf()
    ensures Assoc.Get(Initial(), "version") == Some(Str(VersionText(V1)))
    ensures Assoc.Get(AtV2(), "version") == Some(Str(VersionText(V2)))
  {
  }

  /**
   * The full upgrade: `{version: '1.0.0'}` becomes `{version: '3.0.0', scalar: 2, vector: [1, 2]}`
   * (`AtV3`), with the callback called with ('1.0.0', '2.0.0') and then ('2.0.0', '3.0.0').
   */
  lemma FullUpgrade()
    ensures MigrateWith([V2, V3], Table(), Initial(), Null, true)
         == Success((AtV3(), [(Str(VersionText(V1)), Str(VersionText(V2))), (Str(VersionText(V2)), Str(VersionText(V3)))]))
  {
    TableFacts();
    VersionsOf();
    ParseValueText(V1);
    ParseValueText(V3);
    Targets();
    MigrateSelects([V2, V3], Table(), Initial(), Null, true);
    FullSelect();
    StepToV2();
    StepToV3();
    ApplyTwo(Table(), Initial(), V2, V3, AtV2(), AtV3());
  }

  /**
   * The partial upgrade to 2.1.0, which is not itself a recorded version, stops at 2.0.0
   * (`AtV2`, `useless` still set) with one callback call ('1.0.0', '2.0.0').
   */
  lemma PartialUpgrade()
    ensures MigrateWith([V2, V3], Table(), Initial(), Str(VersionText(Version(2, 1, 0))), true)
         == Success((AtV2(), [(Str(VersionText(V1)), Str(VersionText(V2)))]))
  {
    TableFacts();
    VersionsOf();
    var target := Str(VersionText(Version(2, 1, 0)));
    ParseValueText(V1);
    ParseValueText(Version(2, 1, 0));
    Targets();
    MigrateSelects([V2, V3], Table(), Initial(), target, true);
    PartialSelect();
    StepToV2();
    ApplyOne(Table(), Initial(), V2, AtV2());
  }
}
