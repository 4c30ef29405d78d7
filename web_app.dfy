/**
 * The web-app meta tags (src/view/misc/web_app.jsx): the list of touch icons is expanded into
 * one entry per size, and the Windows tile image is chosen from the icons, falling back to the
 * favicon. Reading a property of something that is not an object, or calling a string method on
 * something that is not a string, throws; those paths are `Failure`s here.
 */
module WebApp {
  import opened Wrappers
  import opened JsString
  import opened JsValue
  import Seqs

  /** One `apple-touch-icon` link: one size and the icon's source. */
  datatype TouchIcon = TouchIcon(sizes: string, src: Value)

  /** The entries of one size list, all with the same source. */
  function SizeEntries(sizes: seq<string>, src: Value): (r: seq<TouchIcon>)
    ensures |r| == |sizes| && forall i :: 0 <= i < |r| ==> r[i] == TouchIcon(sizes[i], src)
  {
    if |sizes| == 0 then [] else [TouchIcon(sizes[0], src)] + SizeEntries(sizes[1..], src)
  }

  /** The entries of one icon: none unless both `src` and `sizes` are truthy, one per size otherwise. */
  function IconEntries(icon: Value): (r: Result<seq<TouchIcon>, Error>)
    ensures r.Success? && icon.Obj? && !(Truthy(Field(icon, "src")) && Truthy(Field(icon, "sizes"))) ==> r.value == []
  {
    var sizes :- Property(icon, "sizes");
    var src := Property(icon, "src").value;
    if Truthy(src) && Truthy(sizes) then
      if sizes.Str? then Success(SizeEntries(SplitWhitespace(sizes.s), src))
      else Failure(TypeError("icon.sizes.split is not a function"))
    else Success([])
  }

  /** `[].concat(...icons.map(…).filter(Boolean))`: the entries of each icon, in order. */
  function ListEntries(icons: seq<Value>): Result<seq<TouchIcon>, Error> {
    if |icons| == 0 then Success([])
    else
      var first :- IconEntries(icons[0]);
      var rest :- ListEntries(icons[1..]);
      Success(first + rest)
  }

  /** The icons `render` lists: none unless `icons` is an array. */
  function TouchIcons(icons: Value): (r: Result<seq<TouchIcon>, Error>)
    ensures !icons.Arr? ==> r == Success([])
  {
    if icons.Arr? then ListEntries(icons.items) else Success([])
  }

  /** An icon given as `{src, sizes}` with sizes written as words separated by single spaces. */
  predicate Listed(icon: Value, src: Value, words: seq<string>) {
    icon == Obj([("src", src), ("sizes", Str(Join(words, " ")))])
  }

  /** Each size of such an icon is an entry of its own, in order, with that icon's source. */
  lemma {:induction false} SizesSplit(icon: Value, src: Value, words: seq<string>)
    requires Listed(icon, src, words) && Truthy(src)
    requires |words| >= 1 && forall i :: 0 <= i < |words| ==> |words[i]| > 0 && NoWhitespace(words[i])
    ensures IconEntries(icon) == Success(SizeEntries(words, src))
  {
    var text := Join(words, " ");
    assert Property(icon, "sizes") == Success(Str(text));
    assert Property(icon, "src") == Success(src);
    SplitWhitespaceJoin(words);
    assert text != "" by { JoinFirst(words); }
  }

  /** Every entry comes from an icon of the list, with that icon's source. */
  lemma {:induction false} EntriesFromIcons(icons: seq<Value>, e: TouchIcon)
    requires ListEntries(icons).Success? && e in ListEntries(icons).value
    ensures exists i :: 0 <= i < |icons| && icons[i].Obj? && e.src == Field(icons[i], "src") && Truthy(e.src)
  {
    var first := IconEntries(icons[0]).value;
    if e in first {
      var sizes := SplitWhitespace(Field(icons[0], "sizes").s);
      var k :| 0 <= k < |first| && first[k] == e;
      assert icons[0].Obj?;
    } else {
      EntriesFromIcons(icons[1..], e);
      var i :| 0 <= i < |icons[1..]| && icons[1..][i].Obj? && e.src == Field(icons[1..][i], "src") && Truthy(e.src);
      assert icons[i + 1] == icons[1..][i];
    }
  }

  // ---------------------------------------------------------------------------------------
  // The tile image of the `Cacheable` transform.
  // ---------------------------------------------------------------------------------------

  /** `icon.sizes.toLowerCase().indexOf('144x144') > -1`, or the error reading it raises. */
  function IsTile(icon: Value): Result<bool, Error> {
    var sizes :- Property(icon, "sizes");
    if sizes.Str? then Success(Contains(ToLowerAscii(sizes.s), "144x144"))
    else if sizes.Undef? || sizes.Null? then Failure(TypeError("Cannot read properties of " + ToStr(sizes)))
    else Failure(TypeError("icon.sizes.toLowerCase is not a function"))
  }

  /** `icons.find(IsTile)`: the first tile icon, or none; an error stops the search. */
  function FindTile(icons: seq<Value>): Result<Option<Value>, Error> {
    if |icons| == 0 then Success(None)
    else
      var tile :- IsTile(icons[0]);
      if tile then Success(Some(icons[0])) else FindTile(icons[1..])
  }

  /**
   * `icon.src` of an icon the test has passed over: only objects get that far, so the
   * `undefined` for other values is never used.
   */
  function Src(icon: Value): Value {
    if IsObjectLike(icon) then Field(icon, "src") else Undef
  }

  /** The tile image: the first tile icon's source, else the first icon's, else the favicon. */
  function TileIcon(icons: Value, favicon: Value): (r: Result<Value, Error>)
    ensures !icons.Arr? ==> r == Success(favicon)
  {
    if !icons.Arr? then Success(favicon)
    else
      var found :- FindTile(icons.items);
      var chosen := match found
        case Some(icon) => Src(icon)
        case None => if |icons.items| > 0 then Src(icons.items[0]) else Undef;
      Success(if Truthy(chosen) then chosen else favicon)
  }

  /** Whether the test of `find` passes over an icon without error, finding it no tile. */
  predicate NotTile(icon: Value) {
    IsTile(icon) == Success(false)
  }

  /** The first icon the test accepts, after icons it rejects, gives the tile image. */
  lemma FirstTile(items: seq<Value>, i: nat, favicon: Value)
    requires i < |items| && IsTile(items[i]) == Success(true)
    requires forall j :: 0 <= j < i ==> NotTile(items[j])
    ensures FindTile(items) == Success(Some(items[i]))
    ensures var src := Src(items[i]);
      TileIcon(Arr(items), favicon) == Success(if Truthy(src) then src else favicon)
  {
    FindFirstTile(items, i);
  }

  /** `find` stops at the first icon the test accepts. */
  lemma FindFirstTile(items: seq<Value>, i: nat)
    requires i < |items| && IsTile(items[i]) == Success(true)
    requires forall j :: 0 <= j < i ==> NotTile(items[j])
    ensures FindTile(items) == Success(Some(items[i]))
  {
    FindFirstFrom(items, 0, i);
    Seqs.Whole(items);
  }

  /** The same search, from icon `k` on. */
  lemma {:induction false} FindFirstFrom(items: seq<Value>, k: nat, i: nat)
    requires k <= i < |items| && IsTile(items[i]) == Success(true)
    requires forall j :: 0 <= j < i ==> NotTile(items[j])
    ensures FindTile(items[k..]) == Success(Some(items[i]))
    decreases i - k
  {
    Seqs.SuffixShrink(items, k);
    if k == i {
      FindStops(items[k..]);
    } else {
      FindSkips(items[k..]);
      FindFirstFrom(items, k + 1, i);
    }
  }

  /** `find` stops at an icon the test accepts. */
  lemma FindStops(items: seq<Value>)
    requires |items| > 0 && IsTile(items[0]) == Success(true)
    ensures FindTile(items) == Success(Some(items[0]))
  {
  }

  /** `find` passes over an icon the test rejects. */
  lemma FindSkips(items: seq<Value>)
    requires |items| > 0 && NotTile(items[0])
    ensures FindTile(items) == FindTile(items[1..])
  {
  }

  /** When no icon is a tile, the first icon's source is used, or the favicon where it is falsy. */
  lemma {:induction false} NoTile(items: seq<Value>, favicon: Value)
    requires forall j :: 0 <= j < |items| ==> NotTile(items[j])
    ensures FindTile(items) == Success(None)
    ensures |items| > 0 ==> var src := Src(items[0]);
      TileIcon(Arr(items), favicon) == Success(if Truthy(src) then src else favicon)
    ensures |items| == 0 ==> TileIcon(Arr(items), favicon) == Success(favicon)
  {
    if |items| > 0 {
      assert NotTile(items[0]);
      assert forall j :: 0 <= j < |items| - 1 ==> items[1..][j] == items[j + 1];
      NoTile(items[1..], favicon);
    }
  }

  /** The test ignores letter case: `144X144` marks a tile as well. */
  lemma UpperCaseTile(a: string, b: string)
    ensures Contains(ToLowerAscii(a + "144X144" + b), "144x144")
  {
    var s := a + "144X144" + b;
    var low := ToLowerAscii(s);
    assert low[|a|..|a| + 7] == "144x144";
    assert OccursAt(low, "144x144", |a|);
  }
}
