/**
 * Configuration migration (src/core/migrate.js).
 *
 * A migration class names a target version and an `upgrade` function; `Migrator` walks a
 * chain of such classes from the newest one back through their `head`s, records each version,
 * and upgrades a configuration through every version after the configuration's own, up to a
 * target. Versions are the `MAJOR.MINOR.PATCH` form of Semantic Versioning 2.0.0 (section 2)
 * ordered by the precedence of its section 11; a chain is the finite list of classes the walk
 * meets, in walking order.
 */
module Migrations {
  import opened Wrappers
  import opened JsString
  import opened JsValue
  import Assoc
  import Seqs

  datatype Version = Version(major: nat, minor: nat, patch: nat)

  /** Precedence of normal versions: major, then minor, then patch, compared numerically. */
  predicate Less(a: Version, b: Version) {
    a.major < b.major || (a.major == b.major && (a.minor < b.minor || (a.minor == b.minor && a.patch < b.patch)))
  }

  predicate LessEq(a: Version, b: Version) {
    a == b || Less(a, b)
  }

  function VersionText(v: Version): string {
    NatToString(v.major) + "." + NatToString(v.minor) + "." + NatToString(v.patch)
  }

  /** `semver.valid(s)` for the canonical form: three dot-separated numerals. */
  function ParseVersion(s: string): (r: Option<Version>)
    ensures r.Some? ==> VersionText(r.value) == s
  {
    var parts := Split(s, '.');
    if |parts| != 3 then None
    else
      var major := ReadNumeral(parts[0]);
      var minor := ReadNumeral(parts[1]);
      var patch := ReadNumeral(parts[2]);
      if major.None? || minor.None? || patch.None? then None
      else
        ReadNumeralText(parts[0]);
        ReadNumeralText(parts[1]);
        ReadNumeralText(parts[2]);
        assert parts == [parts[0], parts[1], parts[2]];
        Join3(parts[0], parts[1], parts[2], ".");
        Some(Version(major.value, minor.value, patch.value))
  }

  /** A version's text is valid and reads back as that version. */
  lemma ParseVersionText(v: Version)
    ensures ParseVersion(VersionText(v)) == Some(v)
  {
    var parts := [NatToString(v.major), NatToString(v.minor), NatToString(v.patch)];
    Join3(parts[0], parts[1], parts[2], ".");
    SplitJoin(parts, '.');
    ReadNumeralOfText(v.major);
    ReadNumeralOfText(v.minor);
    ReadNumeralOfText(v.patch);
  }

  /** The text of a version is a valid version argument. */
  lemma ParseValueText(v: Version)
    ensures ParseValue(Str(VersionText(v))) == Success(v)
  {
    ParseVersionText(v);
  }

  /** A version argument handed to `semver`: a valid version string, or a `TypeError`. */
  function ParseValue(v: Value): (r: Result<Version, Error>)
    ensures r.Success? <==> v.Str? && ParseVersion(v.s).Some?
    ensures r.Success? ==> v == Str(VersionText(r.value))
  {
    if v.Str? && ParseVersion(v.s).Some? then Success(ParseVersion(v.s).value)
    else Failure(TypeError("Invalid Version: " + ToStr(v)))
  }

  predicate Sorted(s: seq<Version>) {
    forall i, j :: 0 <= i < j < |s| ==> LessEq(s[i], s[j])
  }

  function Insert(v: Version, s: seq<Version>): (r: seq<Version>)
    ensures multiset(r) == multiset(s) + multiset{v}
    ensures Sorted(s) ==> Sorted(r)
  {
    if |s| == 0 then [v]
    else if LessEq(v, s[0]) then [v] + s
    else
      var rest := Insert(v, s[1..]);
      Seqs.FirstSplit(s);
      assert Sorted(s) ==> Sorted([s[0]] + rest) by {
        if Sorted(s) {
          forall y | y in rest ensures LessEq(s[0], y) {
            assert y in multiset(rest);
            assert y in multiset(s[1..]) || y == v;
          }
          ConsSorted(s[0], rest);
        }
      }
      [s[0]] + rest
  }

  /** A version at most every element of an ascending list can go in front of it. */
  lemma ConsSorted(x: Version, rest: seq<Version>)
    requires Sorted(rest) && forall y :: y in rest ==> LessEq(x, y)
    ensures Sorted([x] + rest)
  {
    var r := [x] + rest;
    forall i, j | 0 <= i < j < |r| ensures LessEq(r[i], r[j]) {
      assert r[j] == rest[j - 1];
      if i > 0 {
        assert r[i] == rest[i - 1];
      }
    }
  }

  /** `versions.sort(semver.compare)`: ascending precedence, the same versions. */
  function Sort(s: seq<Version>): (r: seq<Version>)
    ensures Sorted(r) && multiset(r) == multiset(s)
  {
    if |s| == 0 then []
    else
      Seqs.FirstSplit(s);
      Insert(s[0], Sort(s[1..]))
  }

  /** Sorting what is already in order changes nothing. */
  lemma {:induction false} SortSorted(s: seq<Version>)
    requires Sorted(s)
    ensures Sort(s) == s
  {
    if |s| > 0 {
      SortSorted(s[1..]);
      Seqs.FirstSplit(s);
    }
  }

  /** Sorting keeps exactly the versions it is given. */
  lemma SortMembers(s: seq<Version>)
    ensures forall v :: v in Sort(s) <==> v in s
  {
    forall v ensures v in Sort(s) <==> v in s {
      assert v in Sort(s) <==> v in multiset(Sort(s));
      assert v in s <==> v in multiset(s);
    }
  }

  /** The last of an ascending list of versions is its greatest. */
  lemma LastIsGreatest(s: seq<Version>)
    requires Sorted(s) && |s| > 0
    ensures forall v :: v in s ==> LessEq(v, s[|s| - 1])
  {
    forall v | v in s ensures LessEq(v, s[|s| - 1]) {
      var k :| 0 <= k < |s| && s[k] == v;
      if k < |s| - 1 {
        assert LessEq(s[k], s[|s| - 1]);
      }
    }
  }

  /** A configuration object. */
  type Config = seq<(string, Value)>

  /**
   * One class of the chain: its name, whether it extends `Migration`, the `version` its
   * constructor sets, and its `upgrade`.
   */
  datatype MigrationClass = MigrationClass(
    name: string, extendsMigration: bool, version: Value, upgrade: Config -> Result<Config, Error>)

  /** The base class's `upgrade`. */
  function NotImplemented(config: Config): (r: Result<Config, Error>)
    ensures r == Failure(Thrown("Not implemented!"))
  {
    Failure(Thrown("Not implemented!"))
  }

  /** `Migration.migrate(config)`: the upgraded object, stamped with the step's version. */
  function MigrateStep(m: MigrationClass, config: Config): (r: Result<Config, Error>)
    ensures m.upgrade(config).Failure? ==> r == Failure(m.upgrade(config).error)
    ensures r.Success? ==>
      Assoc.Get(r.value, "version") == Some(Str(ToStr(m.version)))
      && forall k :: k != "version" ==> Assoc.Get(r.value, k) == Assoc.Get(m.upgrade(config).value, k)
  {
    var result :- m.upgrade(config);
    Success(Assoc.Put(result, "version", Str(ToStr(m.version))))
  }

  /** The two checks the `Migrator` constructor makes of each class it walks through. */
  function CheckClass(m: MigrationClass): (r: Result<Version, Error>)
    ensures !m.extendsMigration ==> r == Failure(Thrown("Migration " + m.name + " is not a Migration class."))
    ensures r.Success? ==> Stamps(m, r.value)
    ensures m.extendsMigration && ParseValue(m.version).Failure? ==>
      r == Failure(Thrown(ToStr(m.version) + " is not a valid version in " + m.name + "}"))
  {
    if !m.extendsMigration then Failure(Thrown("Migration " + m.name + " is not a Migration class."))
    else if ParseValue(m.version).Failure? then
      Failure(Thrown(ToStr(m.version) + " is not a valid version in " + m.name + "}"))
    else ParseValue(m.version)
  }

  /** `m` is a migration class whose version is `v`. */
  predicate Stamps(m: MigrationClass, v: Version) {
    m.extendsMigration && m.version == Str(VersionText(v))
  }

  /** The lookup table of a migrator: every version maps to a class that stamps that version. */
  predicate TableOk(t: map<Version, MigrationClass>) {
    forall v :: v in t ==> Stamps(t[v], v)
  }

  /**
   * What the constructor's loop records for a chain, up to the first class that fails a check:
   * the versions in walking order and, per version, the last class walked that has it.
   */
  function Loaded(chain: seq<MigrationClass>): (r: Result<(seq<Version>, map<Version, MigrationClass>), Error>)
  {
    if |chain| == 0 then Success(([], map[]))
    else
      var before := Loaded(chain[..|chain| - 1]);
      if before.Failure? then Failure(before.error)
      else
        var v :- CheckClass(chain[|chain| - 1]);
        Success((before.value.0 + [v], before.value.1[v := chain[|chain| - 1]]))
  }

  /**
   * A chain that loads yields one version per class, each the version its class sets, and a
   * table holding exactly those versions.
   */
  lemma {:induction false} LoadedShape(chain: seq<MigrationClass>)
    requires Loaded(chain).Success?
    ensures
      var (vs, t) := Loaded(chain).value;
      |vs| == |chain| && TableOk(t) && (forall v :: v in t <==> v in vs)
      && forall i :: 0 <= i < |chain| ==> Stamps(chain[i], vs[i])
  {
    if |chain| > 0 {
      var init := chain[..|chain| - 1];
      LoadedShape(init);
      var last := chain[|chain| - 1];
      var v := CheckClass(last).value;
      var (vs0, t0) := Loaded(init).value;
      assert Loaded(chain) == Success((vs0 + [v], t0[v := last]));
      Seqs.LastSplit(chain);
      ShapeStep(init, last, vs0, t0, v);
    }
  }

  /** One more recorded class keeps the shape `LoadedShape` describes. */
  lemma ShapeStep(init: seq<MigrationClass>, last: MigrationClass, vs0: seq<Version>,
                  t0: map<Version, MigrationClass>, v: Version)
    requires |vs0| == |init| && TableOk(t0) && (forall u :: u in t0 <==> u in vs0)
    requires forall i :: 0 <= i < |init| ==> Stamps(init[i], vs0[i])
    requires Stamps(last, v)
    ensures var (chain, vs, t) := (init + [last], vs0 + [v], t0[v := last]);
      |vs| == |chain| && TableOk(t) && (forall u :: u in t <==> u in vs)
      && forall i :: 0 <= i < |chain| ==> Stamps(chain[i], vs[i])
  {
    var vs := vs0 + [v];
    assert forall u :: u in vs <==> u in vs0 || u == v;
  }

  /** A chain that does not load fails with the error of its first class that fails a check. */
  lemma {:induction false} LoadedFailure(chain: seq<MigrationClass>)
    requires Loaded(chain).Failure?
    ensures exists i :: 0 <= i < |chain| && CheckClass(chain[i]) == Failure(Loaded(chain).error)
                        && Loaded(chain[..i]).Success?
  {
    var init := chain[..|chain| - 1];
    if Loaded(init).Failure? {
      LoadedFailure(init);
      var i :| 0 <= i < |init| && CheckClass(init[i]) == Failure(Loaded(init).error) && Loaded(init[..i]).Success?;
      assert init[..i] == chain[..i] && init[i] == chain[i];
    } else {
      assert chain[..|init|] == init;
    }
  }

  /** The versions `migrate` selects: after `from`, up to and including `to`, in the given order. */
  function Select(vs: seq<Version>, from: Version, to: Version): (r: seq<Version>)
    ensures forall v :: v in r <==> v in vs && Less(from, v) && LessEq(v, to)
    ensures |r| <= |vs|
    ensures Sorted(vs) ==> Sorted(r)
  {
    if |vs| == 0 then []
    else
      var rest := Select(vs[1..], from, to);
      assert forall v :: v in vs <==> v == vs[0] || v in vs[1..] by { Seqs.FirstSplit(vs); }
      if Less(from, vs[0]) && LessEq(vs[0], to) then
        var r := [vs[0]] + rest;
        assert Sorted(vs) ==> Sorted(r) by {
          if Sorted(vs) {
            assert Sorted(vs[1..]);
            forall i, j | 0 <= i < j < |r| ensures LessEq(r[i], r[j]) {
              if i == 0 {
                assert r[j] in rest;
                var k :| 0 <= k < |vs[1..]| && vs[1..][k] == r[j];
                assert vs[k + 1] == r[j];
              }
            }
          }
        }
        r
      else rest
  }

  /**
   * The `reduce` of `migrate`: each selected step applied in turn, with the pair the callback
   * receives for it (the configuration's version before the step, the step's version).
   */
  function Apply(t: map<Version, MigrationClass>, config: Config, steps: seq<Version>, callback: bool)
    : (r: Result<(Config, seq<(Value, Value)>), Error>)
    requires forall v :: v in steps ==> v in t
    ensures steps == [] ==> r == Success((config, []))
    decreases |steps|
  {
    if |steps| == 0 then Success((config, []))
    else
      var m := t[steps[0]];
      var result :- MigrateStep(m, config);
      var rest :- Apply(t, result, steps[1..], callback);
      var call := if callback then [(Assoc.Get(config, "version").GetOr(Undef), m.version)] else [];
      Success((rest.0, call + rest.1))
  }

  /** The first step of a run, then the rest of the run from what it gives. */
  lemma ApplyFirst(t: map<Version, MigrationClass>, config: Config, steps: seq<Version>, callback: bool)
    requires |steps| > 0 && forall v :: v in steps ==> v in t
    ensures var m := t[steps[0]];
      Apply(t, config, steps, callback) ==
        if MigrateStep(m, config).Failure? then Failure(MigrateStep(m, config).error)
        else
          var rest := Apply(t, MigrateStep(m, config).value, steps[1..], callback);
          if rest.Failure? then Failure(rest.error)
          else Success((rest.value.0,
                        (if callback then [(Assoc.Get(config, "version").GetOr(Undef), m.version)] else [])
                        + rest.value.1))
  {
  }

  /** A run of steps that succeeds leaves the last step's version in the configuration. */
  lemma {:induction false} ApplyVersion(t: map<Version, MigrationClass>, config: Config, steps: seq<Version>, callback: bool)
    requires forall v :: v in steps ==> v in t
    requires TableOk(t)
    ensures var r := Apply(t, config, steps, callback);
      r.Success? && steps != [] ==> Assoc.Get(r.value.0, "version") == Some(Str(VersionText(steps[|steps| - 1])))
    decreases |steps|
  {
    if |steps| > 0 {
      ApplyFirst(t, config, steps, callback);
      var m := t[steps[0]];
      assert Stamps(m, steps[0]);
      if MigrateStep(m, config).Success? {
        var tail := steps[1..];
        ApplyVersion(t, MigrateStep(m, config).value, tail, callback);
        if tail != [] {
          assert tail[|tail| - 1] == steps[|steps| - 1];
        }
      }
    }
  }

  /**
   * A run of steps that succeeds reports, with a callback, one pair per step: the version
   * before it and the step's own version; without one, nothing.
   */
  lemma {:induction false} ApplyReports(t: map<Version, MigrationClass>, config: Config, steps: seq<Version>, callback: bool)
    requires forall v :: v in steps ==> v in t
    requires TableOk(t)
    ensures var r := Apply(t, config, steps, callback);
      && (r.Success? && callback ==> |r.value.1| == |steps|)
      && (r.Success? && callback ==> forall i :: 0 <= i < |steps| ==> r.value.1[i].1 == Str(VersionText(steps[i])))
      && (r.Success? && callback && steps != [] ==> r.value.1[0].0 == Assoc.Get(config, "version").GetOr(Undef))
      && (r.Success? && callback ==>
            forall i :: 0 < i < |steps| ==> r.value.1[i].0 == Str(VersionText(steps[i - 1])))
      && (r.Success? && !callback ==> r.value.1 == [])
    decreases |steps|
  {
    if |steps| > 0 {
      ApplyFirst(t, config, steps, callback);
      var m := t[steps[0]];
      assert Stamps(m, steps[0]);
      var step := MigrateStep(m, config);
      if step.Success? {
        var tail := steps[1..];
        ApplyReports(t, step.value, tail, callback);
        var rest := Apply(t, step.value, tail, callback);
        if rest.Success? && callback {
          ApplyCalls(config, m, steps, rest.value.1, Apply(t, config, steps, callback).value.1);
        }
      }
    }
  }

  /** The callback pairs of one step put before those of the steps after it. */
  lemma ApplyCalls(config: Config, m: MigrationClass, steps: seq<Version>, rest: seq<(Value, Value)>,
                   calls: seq<(Value, Value)>)
    requires |steps| > 0 && m.version == Str(VersionText(steps[0]))
    requires calls == [(Assoc.Get(config, "version").GetOr(Undef), m.version)] + rest
    requires |rest| == |steps| - 1
    requires forall i :: 0 <= i < |steps| - 1 ==> rest[i].1 == Str(VersionText(steps[1..][i]))
    requires |steps| > 1 ==> rest[0].0 == Str(VersionText(steps[0]))
    requires forall i :: 0 < i < |steps| - 1 ==> rest[i].0 == Str(VersionText(steps[1..][i - 1]))
    ensures |calls| == |steps|
    ensures forall i :: 0 <= i < |steps| ==> calls[i].1 == Str(VersionText(steps[i]))
    ensures calls[0].0 == Assoc.Get(config, "version").GetOr(Undef)
    ensures forall i :: 0 < i < |steps| ==> calls[i].0 == Str(VersionText(steps[i - 1]))
  {
    forall i | 0 < i < |steps| ensures calls[i] == rest[i - 1] && steps[1..][i - 1] == steps[i] { }
  }

  /** `migrate(config, toVersion, callback)` on a migrator's recorded versions and table. */
  function MigrateWith(versions: seq<Version>, t: map<Version, MigrationClass>, config: Config,
                       toVersion: Value, callback: bool)
    : (r: Result<(Config, seq<(Value, Value)>), Error>)
    requires Sorted(versions) && TableOk(t) && forall v :: v in versions ==> v in t
  {
    if |versions| == 0 then Success((config, []))
    else
      var from :- ParseValue(Assoc.Get(config, "version").GetOr(Undef));
      MigrateFrom(versions, t, config, from, toVersion, callback)
  }

  /**
   * The filter's second test, and with it the target, is reached only once some recorded
   * version follows the configuration's.
   */
  function MigrateFrom(versions: seq<Version>, t: map<Version, MigrationClass>, config: Config,
                       from: Version, toVersion: Value, callback: bool)
    : (r: Result<(Config, seq<(Value, Value)>), Error>)
    requires |versions| > 0
    requires Sorted(versions) && TableOk(t) && forall v :: v in versions ==> v in t
  {
    if !exists v :: v in versions && Less(from, v) then Success((config, []))
    else
      var to :- ParseValue(Target(versions, toVersion));
      MigrateRange(versions, t, config, from, to, callback)
  }

  /** The filter, the sort and the `reduce` of `migrate`, once both ends are versions. */
  function MigrateRange(versions: seq<Version>, t: map<Version, MigrationClass>, config: Config,
                        from: Version, to: Version, callback: bool)
    : (r: Result<(Config, seq<(Value, Value)>), Error>)
    requires TableOk(t) && forall v :: v in versions ==> v in t
  {
    var selected := Select(versions, from, to);
    SortMembers(selected);
    Apply(t, config, Sort(selected), callback)
  }

  /** The target when `toVersion` is falsy: the latest recorded version. */
  function Target(versions: seq<Version>, toVersion: Value): Value
    requires |versions| > 0
  {
    if Truthy(toVersion) then toVersion else Str(VersionText(versions[|versions| - 1]))
  }

  /**
   * The steps `migrate` applies are exactly the recorded versions after the configuration's
   * version and up to the target, ascending, and the result carries the last one's version.
   */
  lemma MigrateSelects(versions: seq<Version>, t: map<Version, MigrationClass>, config: Config,
                       toVersion: Value, callback: bool)
    requires Sorted(versions) && TableOk(t) && forall v :: v in versions ==> v in t
    requires |versions| > 0
    requires ParseValue(Assoc.Get(config, "version").GetOr(Undef)).Success?
    requires ParseValue(Target(versions, toVersion)).Success?
    ensures
      var from := ParseValue(Assoc.Get(config, "version").GetOr(Undef)).value;
      var to := ParseValue(Target(versions, toVersion)).value;
      var steps := Select(versions, from, to);
      Sorted(steps) && (forall v :: v in steps <==> v in versions && Less(from, v) && LessEq(v, to))
      && MigrateWith(versions, t, config, toVersion, callback) == Apply(t, config, steps, callback)
  {
    var from := ParseValue(Assoc.Get(config, "version").GetOr(Undef)).value;
    var to := ParseValue(Target(versions, toVersion)).value;
    RangeSelects(versions, t, config, from, to, callback);
    MigrateWithFrom(versions, t, config, toVersion, callback, from);
    if !exists v :: v in versions && Less(from, v) {
      SelectNone(versions, from, to);
    }
  }

  /** With a first version to start from, `migrate` goes on as `MigrateFrom`. */
  lemma MigrateWithFrom(versions: seq<Version>, t: map<Version, MigrationClass>, config: Config,
                        toVersion: Value, callback: bool, from: Version)
    requires Sorted(versions) && TableOk(t) && forall v :: v in versions ==> v in t
    requires |versions| > 0
    requires ParseValue(Assoc.Get(config, "version").GetOr(Undef)) == Success(from)
    ensures MigrateWith(versions, t, config, toVersion, callback) == MigrateFrom(versions, t, config, from, toVersion, callback)
  {
  }

  /** Once both ends are known, the sort changes nothing: the selection is already ascending. */
  lemma RangeSelects(versions: seq<Version>, t: map<Version, MigrationClass>, config: Config,
                     from: Version, to: Version, callback: bool)
    requires Sorted(versions) && TableOk(t) && forall v :: v in versions ==> v in t
    ensures Sorted(Select(versions, from, to))
    ensures MigrateRange(versions, t, config, from, to, callback) == Apply(t, config, Select(versions, from, to), callback)
  {
    SortSorted(Select(versions, from, to));
  }

  /** The most recent version among those recorded. */
  function Latest(versions: seq<Version>): (r: Version)
    requires |versions| > 0 && Sorted(versions)
    ensures r in versions && forall v :: v in versions ==> LessEq(v, r)
  {
    versions[|versions| - 1]
  }

  /**
   * Migrating the result of a migration again to the same target applies nothing: every
   * version up to the target is at most the result's version.
   */
  lemma MigrateIdempotent(versions: seq<Version>, t: map<Version, MigrationClass>, config: Config,
                          toVersion: Value, callback: bool)
    requires Sorted(versions) && TableOk(t) && forall v :: v in versions ==> v in t
    requires MigrateWith(versions, t, config, toVersion, callback).Success?
    ensures
      var once := MigrateWith(versions, t, config, toVersion, callback).value.0;
      MigrateWith(versions, t, once, toVersion, callback) == Success((once, []))
  {
    if |versions| > 0 {
      var from := ParseValue(Assoc.Get(config, "version").GetOr(Undef)).value;
      MigrateWithFrom(versions, t, config, toVersion, callback, from);
      FromIdempotent(versions, t, config, from, toVersion, callback);
    }
  }

  /** `MigrateIdempotent` once the configuration's version is known. */
  lemma FromIdempotent(versions: seq<Version>, t: map<Version, MigrationClass>, config: Config,
                       from: Version, toVersion: Value, callback: bool)
    requires Sorted(versions) && TableOk(t) && forall v :: v in versions ==> v in t
    requires |versions| > 0 && ParseValue(Assoc.Get(config, "version").GetOr(Undef)) == Success(from)
    requires MigrateFrom(versions, t, config, from, toVersion, callback).Success?
    ensures var once := MigrateFrom(versions, t, config, from, toVersion, callback).value.0;
      MigrateWith(versions, t, once, toVersion, callback) == Success((once, []))
  {
    MigrateWithFrom(versions, t, config, toVersion, callback, from);
    if exists v :: v in versions && Less(from, v) {
      var to := ParseValue(Target(versions, toVersion)).value;
      MigrateFromRange(versions, t, config, from, toVersion, callback, to);
      RangeSelects(versions, t, config, from, to, callback);
      if Select(versions, from, to) != [] {
        RangeSettles(versions, t, config, from, to, toVersion, callback);
      }
    }
  }

  /** After a non-empty range up to the target is applied, `migrate` to that target applies nothing. */
  lemma RangeSettles(versions: seq<Version>, t: map<Version, MigrationClass>, config: Config,
                     from: Version, to: Version, toVersion: Value, callback: bool)
    requires Sorted(versions) && TableOk(t) && forall v :: v in versions ==> v in t
    requires |versions| > 0 && ParseValue(Target(versions, toVersion)) == Success(to)
    requires Select(versions, from, to) != []
    requires MigrateRange(versions, t, config, from, to, callback).Success?
    ensures var once := MigrateRange(versions, t, config, from, to, callback).value.0;
      MigrateWith(versions, t, once, toVersion, callback) == Success((once, []))
  {
    var once := MigrateRange(versions, t, config, from, to, callback).value.0;
    var w := RangeIdempotent(versions, t, config, from, to, callback);
    MigrateWithFrom(versions, t, once, toVersion, callback, w);
    if exists v :: v in versions && Less(w, v) {
      MigrateFromRange(versions, t, once, w, toVersion, callback, to);
      RangeSelects(versions, t, once, w, to, callback);
    }
  }

  /** Once some recorded version follows the configuration's, `migrate` goes on as `MigrateRange`. */
  lemma MigrateFromRange(versions: seq<Version>, t: map<Version, MigrationClass>, config: Config,
                         from: Version, toVersion: Value, callback: bool, to: Version)
    requires Sorted(versions) && TableOk(t) && forall v :: v in versions ==> v in t
    requires |versions| > 0 && exists v :: v in versions && Less(from, v)
    requires ParseValue(Target(versions, toVersion)) == Success(to)
    ensures MigrateFrom(versions, t, config, from, toVersion, callback) == MigrateRange(versions, t, config, from, to, callback)
  {
  }

  /**
   * After a non-empty range is applied, the configuration carries the range's last version
   * `w`, and no recorded version lies after `w` and up to the same target.
   */
  lemma RangeIdempotent(versions: seq<Version>, t: map<Version, MigrationClass>, config: Config,
                        from: Version, to: Version, callback: bool) returns (w: Version)
    requires Sorted(versions) && TableOk(t) && forall v :: v in versions ==> v in t
    requires Select(versions, from, to) != []
    requires MigrateRange(versions, t, config, from, to, callback).Success?
    ensures
      var once := MigrateRange(versions, t, config, from, to, callback).value.0;
      ParseValue(Assoc.Get(once, "version").GetOr(Undef)) == Success(w)
    ensures Select(versions, w, to) == []
  {
    RangeSelects(versions, t, config, from, to, callback);
    var steps := Select(versions, from, to);
    ApplyVersion(t, config, steps, callback);
    w := steps[|steps| - 1];
    ParseValueText(w);
    SelectAfterLast(versions, from, to);
  }

  /** Nothing is selected after the last selected version, up to the same target. */
  lemma SelectAfterLast(versions: seq<Version>, from: Version, to: Version)
    requires Sorted(versions) && Select(versions, from, to) != []
    ensures
      var steps := Select(versions, from, to);
      Select(versions, steps[|steps| - 1], to) == []
  {
    var steps := Select(versions, from, to);
    var w := steps[|steps| - 1];
    LastIsGreatest(steps);
    forall v | v in versions && Less(w, v) ensures !LessEq(v, to) {
      if LessEq(v, to) {
        assert w in steps;
        assert Less(from, v);
      }
    }
    SelectNone(versions, w, to);
  }

  /** When no version lies in the range, nothing is selected. */
  lemma {:induction false} SelectNone(vs: seq<Version>, from: Version, to: Version)
    requires forall v :: v in vs && Less(from, v) ==> !LessEq(v, to)
    ensures Select(vs, from, to) == []
  {
    if |vs| > 0 {
      assert vs[0] in vs;
      assert forall v :: v in vs[1..] ==> v in vs;
      SelectNone(vs[1..], from, to);
    }
  }

  class Migrator {
    var versions: seq<Version>
    var migrations: map<Version, MigrationClass>

    /** What every migrator keeps: versions ascending, each with a class that stamps it. */
    predicate Valid()
      reads this
    {
      Sorted(versions) && TableOk(migrations) && forall v :: v in versions ==> v in migrations
    }

    constructor Empty()
      ensures versions == [] && migrations == map[]
    {
      versions := [];
      migrations := map[];
    }

    /** `new Migrator(head)`, on the chain the walk through the `head`s meets. */
    static method Create(chain: seq<MigrationClass>) returns (r: Result<Migrator, Error>)
      ensures Loaded(chain).Failure? ==> r == Failure(Loaded(chain).error)
      ensures r.Success? <==> Loaded(chain).Success?
      ensures r.Success? ==> fresh(r.value) && r.value.Valid()
      ensures r.Success? ==>
        r.value.versions == Sort(Loaded(chain).value.0) && r.value.migrations == Loaded(chain).value.1
    {
      var m := new Migrator.Empty();
      var i := 0;
      while i < |chain|
        invariant 0 <= i <= |chain|
        invariant Loaded(chain[..i]) == Success((m.versions, m.migrations))
      {
        var v := CheckClass(chain[i]);
        LoadedGrow(chain, i);
        if v.Failure? {
          return Failure(v.error);
        }
        m.versions := m.versions + [v.value];
        m.migrations := m.migrations[v.value := chain[i]];
        i := i + 1;
      }
      Seqs.Whole(chain);
      LoadedValid(chain);
      m.versions := Sort(m.versions);
      return Success(m);
    }

    /** `getLatestVersion()`: none for an empty chain, else the greatest recorded version. */
    function GetLatestVersion(): (r: Option<string>)
      reads this
      requires Valid()
      ensures r.None? <==> |versions| == 0
      ensures r.Some? ==> exists l :: l in versions && r.value == VersionText(l) && forall v :: v in versions ==> LessEq(v, l)
    {
      if |versions| == 0 then None else Some(VersionText(Latest(versions)))
    }

    /** `isOudated(version)`: `null` for an empty chain, else whether `version` precedes the latest. */
    function IsOutdated(version: Value): (r: Result<Option<bool>, Error>)
      reads this
      requires Valid()
      ensures |versions| == 0 <==> r == Success(None)
      ensures |versions| > 0 && ParseValue(version).Failure? ==> r.Failure?
      ensures r.Success? && r.value.Some? ==>
        (r.value.value <==> exists w :: w in versions && Less(ParseValue(version).value, w))
    {
      if |versions| == 0 then Success(None)
      else
        var v :- ParseValue(version);
        Success(Some(Less(v, Latest(versions))))
    }

    /** `migrate(config, toVersion, callback)`; `callback` says whether a callback function is given. */
    function Migrate(config: Config, toVersion: Value, callback: bool): (r: Result<(Config, seq<(Value, Value)>), Error>)
      reads this
      requires Valid()
      ensures |versions| == 0 ==> r == Success((config, []))
      ensures r.Success? ==> MigrateWith(versions, migrations, r.value.0, toVersion, callback) == Success((r.value.0, []))
    {
      var r := MigrateWith(versions, migrations, config, toVersion, callback);
      if r.Success? then
        MigrateIdempotent(versions, migrations, config, toVersion, callback);
        r
      else r
    }
  }

  /** One more class of the chain: a failed check fails the whole chain, a passed one is recorded. */
  lemma LoadedGrow(chain: seq<MigrationClass>, i: nat)
    requires i < |chain| && Loaded(chain[..i]).Success?
    ensures CheckClass(chain[i]).Failure? ==> Loaded(chain) == Failure(CheckClass(chain[i]).error)
    ensures CheckClass(chain[i]).Success? ==>
      var (vs, t) := Loaded(chain[..i]).value;
      var v := CheckClass(chain[i]).value;
      Loaded(chain[..i + 1]) == Success((vs + [v], t[v := chain[i]]))
  {
    Seqs.PrefixGrow(chain, i);
    if CheckClass(chain[i]).Failure? {
      LoadedPrefixFailure(chain, i + 1);
    }
  }

  /** What a loaded chain gives, its versions sorted, is what every migrator keeps. */
  lemma LoadedValid(chain: seq<MigrationClass>)
    requires Loaded(chain).Success?
    ensures var (vs, t) := Loaded(chain).value;
      Sorted(Sort(vs)) && TableOk(t) && forall v :: v in Sort(vs) ==> v in t
  {
    LoadedShape(chain);
    SortMembers(Loaded(chain).value.0);
  }

  /** Once a prefix of the chain fails a check, the whole chain fails with the same error. */
  lemma {:induction false} LoadedPrefixFailure(chain: seq<MigrationClass>, n: nat)
    requires n <= |chain| && Loaded(chain[..n]).Failure?
    ensures Loaded(chain) == Failure(Loaded(chain[..n]).error)
    decreases |chain| - n
  {
    if n < |chain| {
      Seqs.PrefixGrow(chain, n);
      LoadedPrefixFailure(chain, n + 1);
    } else {
      assert chain[..n] == chain;
    }
  }
}
