/**
 * The options of a Hexo tag as its processors read them: `const [key, value] = option.split(':')`.
 */
module TagOptions {
  import opened Wrappers
  import JsString

  /** The key of `option.split(':')`. */
  function Key(option: string): string {
    JsString.Split(option, ':')[0]
  }

  /** The value of `option.split(':')` as a template literal prints it: `undefined` when absent. */
  function ValueText(option: string): (r: string)
    ensures ':' !in r || r == "undefined"
  {
    var parts := JsString.Split(option, ':');
    if |parts| >= 2 then parts[1] else "undefined"
  }

  /** An option `key:value` whose parts have no colon splits into exactly that key and value. */
  lemma KeyValue(key: string, value: string)
    requires ':' !in key && ':' !in value
    ensures Key(key + ":" + value) == key && ValueText(key + ":" + value) == value
  {
    JsString.SplitNoSeparator(value, ':');
    JsString.SplitPrefix(key, value, ':');
    assert key + ":" + value == key + [':'] + value;
  }

  /** An option without a colon has itself as key and no value. */
  lemma KeyOnly(option: string)
    requires ':' !in option
    ensures Key(option) == option && ValueText(option) == "undefined"
  {
    JsString.SplitNoSeparator(option, ':');
  }

  /** The value of the last option with `key`, if any. */
  function LastValue(options: seq<string>, key: string): Option<string> {
    if |options| == 0 then None
    else if Key(options[|options| - 1]) == key then Some(ValueText(options[|options| - 1]))
    else LastValue(options[..|options| - 1], key)
  }

  /** Some option has the key exactly when there is a last one, and its value is that option's. */
  lemma LastValueSome(options: seq<string>, key: string)
    ensures LastValue(options, key).Some? <==> exists k :: 0 <= k < |options| && Key(options[k]) == key
    ensures LastValue(options, key).Some? ==>
      exists k :: 0 <= k < |options| && Key(options[k]) == key && LastValue(options, key).value == ValueText(options[k])
        && forall j :: k < j < |options| ==> Key(options[j]) != key
  {
    if LastValue(options, key).Some? {
      var k := LastValueAt(options, key);
    } else {
      LastValueNone(options, key);
    }
  }

  /** Without a last value, no option has the key. */
  lemma {:induction false} LastValueNone(options: seq<string>, key: string)
    requires LastValue(options, key).None?
    ensures forall k :: 0 <= k < |options| ==> Key(options[k]) != key
  {
    if |options| > 0 {
      var init := options[..|options| - 1];
      LastValueNone(init, key);
      assert forall k :: 0 <= k < |init| ==> init[k] == options[k];
    }
  }

  /** A last value comes from an option `k` with the key that no later option has. */
  lemma {:induction false} LastValueAt(options: seq<string>, key: string) returns (k: nat)
    requires LastValue(options, key).Some?
    ensures k < |options| && Key(options[k]) == key && LastValue(options, key).value == ValueText(options[k])
    ensures forall j :: k < j < |options| ==> Key(options[j]) != key
  {
    var n := |options| - 1;
    if Key(options[n]) == key {
      k := n;
    } else {
      var init := options[..n];
      assert LastValue(options, key) == LastValue(init, key);
      k := LastValueAt(init, key);
      assert forall j :: 0 <= j < |init| ==> init[j] == options[j];
    }
  }
}
