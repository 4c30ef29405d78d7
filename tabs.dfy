/**
 * The `{% tabs %}` tag (src/hexo/tag/tabs.js): the tokenizer that splits a tab's options, and
 * the folds that turn tag options into CSS classes and tab options into a tab's id, icon,
 * title and active flag.
 */
module Tabs {
  import opened Wrappers
  import JsString
  import opened TagOptions
  import Seqs

  /** The error every malformed option string raises. */
  function Malformed(s: string): string {
    "malformatted tab options: " + s
  }

  predicate IsQuote(c: char) {
    c == '"' || c == '\''
  }

  // ---------------------------------------------------------------------------------------
  // The tokens, described by what they are rather than by the automaton that finds them.
  // ---------------------------------------------------------------------------------------

  /**
   * The index of the quote `q` that closes a quoted token whose text starts at `k`: a
   * backslash makes the character after it part of the text; `None` when the input ends first,
   * including right after a backslash.
   */
  function Closing(s: string, q: char, k: nat): (r: Option<nat>)
    ensures r.Some? ==> k <= r.value < |s| && s[r.value] == q
    decreases |s| - k
  {
    if k >= |s| then None
    else if s[k] == '\\' then (if k + 1 >= |s| then None else Closing(s, q, k + 2))
    else if s[k] == q then Some(k)
    else Closing(s, q, k + 1)
  }

  /** The index of the space that ends a bare token starting at or before `k`, or the end. */
  function BareEnd(s: string, k: nat): (r: nat)
    requires k <= |s|
    ensures k <= r <= |s| && (r < |s| ==> s[r] == ' ')
    ensures forall j :: k <= j < r ==> s[j] != ' '
    decreases |s| - k
  {
    if k == |s| || s[k] == ' ' then k else BareEnd(s, k + 1)
  }

  /** The tokens found in `r`'s success value after `options`, or `r`'s error. */
  function Then(options: seq<string>, r: Result<seq<string>, string>): Result<seq<string>, string> {
    if r.Success? then Success(options + r.value) else r
  }

  /**
   * The options of `s` from index `k` on: spaces separate tokens; a token opened by a quote
   * runs to its closing quote, which must be followed by a space or the end; any other token
   * runs to the next space.
   */
  function Tokens(s: string, k: nat): Result<seq<string>, string>
    requires k <= |s|
    decreases |s| - k
  {
    if k == |s| then Success([])
    else if s[k] == ' ' then Tokens(s, k + 1)
    else if IsQuote(s[k]) then
      match Closing(s, s[k], k + 1)
      case None => Failure(Malformed(s))
      case Some(j) =>
        if j + 1 < |s| && s[j + 1] != ' ' then Failure(Malformed(s))
        else Then([s[k + 1..j]], Tokens(s, j + 1))
    else
      var j := BareEnd(s, k);
      Then([s[k..j]], Tokens(s, j))
  }

  lemma ThenEmpty(options: seq<string>, r: Result<seq<string>, string>)
    ensures Then([], r) == r
    ensures Then(options, Success([])) == Success(options)
  {
    if r.Success? {
      assert [] + r.value == r.value;
    }
    assert options + [] == options;
  }

  lemma ThenThen(a: seq<string>, b: seq<string>, r: Result<seq<string>, string>)
    ensures Then(a, Then(b, r)) == Then(a + b, r)
  {
    if r.Success? {
      assert a + (b + r.value) == (a + b) + r.value;
    }
  }

  // ---------------------------------------------------------------------------------------
  // What the tokens are.
  // ---------------------------------------------------------------------------------------

  /** Input made of spaces only, the empty string included, has no options. */
  lemma {:induction false} SpacesOnly(s: string, k: nat)
    requires k <= |s| && forall j :: k <= j < |s| ==> s[j] == ' '
    ensures Tokens(s, k) == Success([])
    decreases |s| - k
  {
    if k < |s| {
      SpacesOnly(s, k + 1);
    }
  }

  /** No option that comes out of a space-separated run is empty, unless it was quoted. */
  lemma {:induction false} BareTokensNonEmpty(s: string, k: nat)
    requires k <= |s| && Tokens(s, k).Success?
    requires forall j :: k <= j < |s| ==> !IsQuote(s[j])
    ensures forall t :: t in Tokens(s, k).value ==> t != "" && ' ' !in t
    decreases |s| - k
  {
    if k < |s| {
      if s[k] == ' ' {
        BareTokensNonEmpty(s, k + 1);
      } else {
        var j := BareEnd(s, k);
        BareTokensNonEmpty(s, j);
        var t := s[k..j];
        assert t[0] == s[k];
        assert ' ' !in t by {
          forall x | 0 <= x < |t| ensures t[x] != ' ' {
            assert t[x] == s[k + x];
          }
        }
      }
    }
  }

  /** A bare word followed by the rest: the word is one option, quotes inside it included. */
  lemma BareWord(w: string, rest: string)
    requires w != [] && !IsQuote(w[0]) && ' ' !in w
    requires rest == [] || rest[0] == ' '
    ensures Tokens(w + rest, 0) == Then([w], Tokens(w + rest, |w|))
  {
    var s := w + rest;
    assert s[0] == w[0];
    BareEndAt(s, 0, |w|);
    assert s[..|w|] == w;
  }

  lemma {:induction false} BareEndAt(s: string, k: nat, e: nat)
    requires k <= e <= |s| && (e < |s| ==> s[e] == ' ')
    requires forall j :: k <= j < e ==> s[j] != ' '
    ensures BareEnd(s, k) == e
    decreases e - k
  {
    if k < e {
      BareEndAt(s, k + 1, e);
    }
  }

  /**
   * A quoted text with no quote or backslash inside, followed by a space or the end: the
   * option is exactly the text between the quotes, spaces included.
   */
  lemma Quoted(q: char, text: string, rest: string)
    requires IsQuote(q) && q !in text && '\\' !in text
    requires rest == [] || rest[0] == ' '
    ensures
      var s := [q] + text + [q] + rest;
      Tokens(s, 0) == Then([text], Tokens(s, |text| + 2))
  {
    var s := [q] + text + [q] + rest;
    Seqs.Enclosed(q, text, q, rest);
    assert forall j :: 1 <= j < |text| + 1 ==> s[j] != q && s[j] != '\\' by {
      assert forall j :: 1 <= j < |text| + 1 ==> s[j] in text;
    }
    ClosingAt(s, q, 1, |text| + 1);
    TokensQuoted(s, 0, |text| + 1);
  }

  /** A quoted token closed before a space or the end is its text, then the tokens after it. */
  lemma TokensQuoted(s: string, k: nat, j: nat)
    requires k < |s| && IsQuote(s[k]) && Closing(s, s[k], k + 1) == Some(j)
    requires j + 1 == |s| || s[j + 1] == ' '
    ensures Tokens(s, k) == Then([s[k + 1..j]], Tokens(s, j + 1))
  {
  }

  lemma {:induction false} ClosingAt(s: string, q: char, k: nat, e: nat)
    requires q != '\\' && k <= e < |s| && s[e] == q
    requires forall j :: k <= j < e ==> s[j] != q && s[j] != '\\'
    ensures Closing(s, q, k) == Some(e)
    decreases e - k
  {
    if k < e {
      ClosingAt(s, q, k + 1, e);
    }
  }

  /**
   * Inside quotes a backslash keeps the next character from closing: `"a\"b"` is the one
   * option `a\"b`, backslash kept.
   */
  lemma EscapedQuote()
    ensures Tokens("\"a\\\"b\"", 0) == Success(["a\\\"b"])
  {
    var s := "\"a\\\"b\"";
    assert Closing(s, '"', 5) == Some(5);
    assert Closing(s, '"', 4) == Some(5);
    assert Closing(s, '"', 2) == Some(5);
    assert Closing(s, '"', 1) == Some(5);
    assert s[1..5] == "a\\\"b";
    assert Tokens(s, 6) == Success([]);
    ThenEmpty([s[1..5]], Tokens(s, 6));
    assert Tokens(s, 0) == Then([s[1..5]], Tokens(s, 6));
  }

  /** A quote left open, or closed by the input ending after a backslash, is malformed. */
  lemma Unterminated(q: char, text: string)
    requires IsQuote(q) && q !in text && '\\' !in text
    ensures Tokens([q] + text, 0) == Failure(Malformed([q] + text))
    ensures Tokens([q] + text + ['\\'], 0) == Failure(Malformed([q] + text + ['\\']))
  {
    var s := [q] + text;
    UnclosedNone(s, q, 1);
    var s' := [q] + text + ['\\'];
    UnclosedNone(s', q, 1);
  }

  lemma {:induction false} UnclosedNone(s: string, q: char, k: nat)
    requires forall j :: k <= j < |s| ==> s[j] != q
    requires forall j :: k <= j < |s| - 1 ==> s[j] != '\\'
    ensures Closing(s, q, k) == None
    decreases |s| - k
  {
    if k < |s| && s[k] != '\\' {
      UnclosedNone(s, q, k + 1);
    }
  }

  /** A closing quote followed by anything but a space or the end is malformed. */
  lemma TextAfterQuote(q: char, text: string, c: char, rest: string)
    requires IsQuote(q) && q !in text && '\\' !in text && c != ' '
    ensures
      var s := [q] + text + [q] + [c] + rest;
      Tokens(s, 0) == Failure(Malformed(s))
  {
    var s := [q] + text + [q] + [c] + rest;
    ClosingAt(s, q, 1, |text| + 1);
  }

  // ---------------------------------------------------------------------------------------
  // splitTabOptions: the automaton.
  // ---------------------------------------------------------------------------------------

  /**
   * The automaton's states: between tokens (1), inside double quotes (2) and just after a
   * backslash there (3), the same for single quotes (4, 5), just after a closing quote (6),
   * inside a bare token (7), and past the end (EOL).
   */
  datatype State = Between | InDouble | DoubleEscape | InSingle | SingleEscape | Closed | InBare | Eol

  /** What each state knows about the input read so far, tied to the tokens still to come. */
  ghost predicate Reading(s: string, i: nat, state: State, begin: nat, options: seq<string>) {
    i <= |s| + 1 && begin <= |s| + 1 &&
    match state
    case Between => i == begin && i <= |s| && Tokens(s, 0) == Then(options, Tokens(s, i))
    case InDouble | InSingle =>
      var q := if state == InDouble then '"' else '\'';
      1 <= begin <= i && begin <= |s| && s[begin - 1] == q && Closing(s, q, begin) == Closing(s, q, i)
      && Tokens(s, 0) == Then(options, Tokens(s, begin - 1))
    case DoubleEscape | SingleEscape =>
      var q := if state == DoubleEscape then '"' else '\'';
      1 <= begin < i <= |s| && s[begin - 1] == q && s[i - 1] == '\\'
      && Closing(s, q, begin) == Closing(s, q, i - 1)
      && Tokens(s, 0) == Then(options, Tokens(s, begin - 1))
    case Closed =>
      1 <= begin < i <= |s| && IsQuote(s[begin - 1]) && Closing(s, s[begin - 1], begin) == Some(i - 1)
      && Tokens(s, 0) == Then(options, Tokens(s, begin - 1))
    case InBare =>
      begin < i <= |s| && s[begin] != ' ' && !IsQuote(s[begin]) && BareEnd(s, begin) == BareEnd(s, i)
      && Tokens(s, 0) == Then(options, Tokens(s, begin))
    case Eol => i == |s| + 1 && Tokens(s, 0) == Success(options)
  }

  /** Between tokens: a space is skipped, a quote opens a quoted token, anything else a bare one. */
  lemma BetweenStep(s: string, i: nat, options: seq<string>)
    requires Reading(s, i, Between, i, options)
    ensures i < |s| && s[i] == ' ' ==> Reading(s, i + 1, Between, i + 1, options)
    ensures i < |s| && s[i] == '"' ==> Reading(s, i + 1, InDouble, i + 1, options)
    ensures i < |s| && s[i] == '\'' ==> Reading(s, i + 1, InSingle, i + 1, options)
    ensures i < |s| && s[i] != ' ' && !IsQuote(s[i]) ==> Reading(s, i + 1, InBare, i, options)
    ensures i == |s| ==> Reading(s, i + 1, Eol, i, options)
  {
    if i == |s| {
      ThenEmpty(options, Tokens(s, i));
    } else if s[i] != ' ' && !IsQuote(s[i]) {
      assert BareEnd(s, i) == BareEnd(s, i + 1);
    }
  }

  /** Inside quotes: a backslash escapes the next character, the same quote closes the token. */
  lemma QuotedStep(s: string, i: nat, state: State, begin: nat, options: seq<string>)
    requires state == InDouble || state == InSingle
    requires Reading(s, i, state, begin, options) && i <= |s|
    ensures
      var q := if state == InDouble then '"' else '\'';
      var escape := if state == InDouble then DoubleEscape else SingleEscape;
      (i < |s| && s[i] == '\\' ==> Reading(s, i + 1, escape, begin, options))
      && (i < |s| && s[i] != '\\' && s[i] == q ==> Reading(s, i + 1, Closed, begin, options))
      && (!(i < |s| && (s[i] == '\\' || s[i] == q)) ==> Reading(s, i + 1, state, begin, options))
  {
  }

  /** The character after a backslash is part of the quoted token, whatever it is. */
  lemma EscapeStep(s: string, i: nat, state: State, begin: nat, options: seq<string>)
    requires state == DoubleEscape || state == SingleEscape
    requires Reading(s, i, state, begin, options)
    ensures Reading(s, i + 1, if state == DoubleEscape then InDouble else InSingle, begin, options)
  {
  }

  /** After a closing quote: the token is complete, and a space or the end must follow. */
  lemma ClosedStep(s: string, i: nat, begin: nat, options: seq<string>)
    requires Reading(s, i, Closed, begin, options) && i <= |s|
    ensures
      var next := options + [s[begin..i - 1]];
      (i < |s| && s[i] == ' ' ==> Reading(s, i + 1, Between, i + 1, next))
      && (i == |s| ==> Reading(s, i + 1, Eol, i + 1, next))
      && (i < |s| && s[i] != ' ' ==> Tokens(s, 0) == Failure(Malformed(s)))
  {
    ThenThen(options, [s[begin..i - 1]], Tokens(s, i));
    if i == |s| {
      ThenEmpty(options + [s[begin..i - 1]], Tokens(s, i));
    }
  }

  /** Inside a bare token: a space or the end completes it. */
  lemma BareStep(s: string, i: nat, begin: nat, options: seq<string>)
    requires Reading(s, i, InBare, begin, options) && i <= |s|
    ensures
      var next := options + [s[begin..i]];
      (i < |s| && s[i] == ' ' ==> Reading(s, i + 1, Between, i + 1, next))
      && (i == |s| ==> Reading(s, i + 1, Eol, i + 1, next))
      && (i < |s| && s[i] != ' ' ==> Reading(s, i + 1, InBare, begin, options))
  {
    ThenThen(options, [s[begin..i]], Tokens(s, i));
    if i == |s| {
      ThenEmpty(options + [s[begin..i]], Tokens(s, i));
    }
  }

  /** Past the end in any state but EOL, a quoted token was left open. */
  lemma Stuck(s: string, state: State, begin: nat, options: seq<string>)
    requires Reading(s, |s| + 1, state, begin, options) && state != Eol
    ensures Tokens(s, 0) == Failure(Malformed(s))
  {
  }

  /** `splitTabOptions(s)`: the options `Tokens` describes, or the malformed-options error. */
  method SplitTabOptions(s: string) returns (r: Result<seq<string>, string>)
    ensures r == Tokens(s, 0)
  {
    var options: seq<string> := [];
    var i: nat := 0;
    var state := Between;
    var begin: nat := 0;
    ThenEmpty([], Tokens(s, 0));
    while i <= |s|
      invariant Reading(s, i, state, begin, options)
      invariant state == Eol ==> i == |s| + 1
      decreases |s| + 1 - i
    {
      var atEnd := i == |s|;
      var c := if i < |s| then s[i] else ' ';
      match state {
        case Between =>
          BetweenStep(s, i, options);
          if !atEnd && c == ' ' {
            state, begin := Between, i + 1;
          } else if !atEnd && c == '"' {
            state, begin := InDouble, i + 1;
          } else if !atEnd && c == '\'' {
            state, begin := InSingle, i + 1;
          } else if atEnd {
            state := Eol;
          } else {
            state := InBare;
          }
        case InDouble =>
          QuotedStep(s, i, state, begin, options);
          if !atEnd && c == '\\' {
            state := DoubleEscape;
          } else if !atEnd && c == '"' {
            state := Closed;
          }
        case DoubleEscape =>
          EscapeStep(s, i, state, begin, options);
          state := InDouble;
        case InSingle =>
          QuotedStep(s, i, state, begin, options);
          if !atEnd && c == '\\' {
            state := SingleEscape;
          } else if !atEnd && c == '\'' {
            state := Closed;
          }
        case SingleEscape =>
          EscapeStep(s, i, state, begin, options);
          state := InSingle;
        case Closed =>
          ClosedStep(s, i, begin, options);
          options := options + [s[begin..i - 1]];
          begin := i + 1;
          if !atEnd && c == ' ' {
            state := Between;
          } else if atEnd {
            state := Eol;
          } else {
            return Failure(Malformed(s));
          }
        case InBare =>
          BareStep(s, i, begin, options);
          if !atEnd && c == ' ' {
            options := options + [s[begin..i]];
            begin := i + 1;
            state := Between;
          } else if atEnd {
            options := options + [s[begin..i]];
            begin := i + 1;
            state := Eol;
          }
        case Eol =>
      }
      i := i + 1;
    }
    if state != Eol {
      Stuck(s, state, begin, options);
      return Failure(Malformed(s));
    }
    return Success(options);
  }

  // ---------------------------------------------------------------------------------------
  // processTag: tag options to classes, tab options to a tab.
  // ---------------------------------------------------------------------------------------

  /** The classes one tag option adds. */
  function OptionClasses(option: string): string {
    var key := Key(option);
    var value := ValueText(option);
    if key == "align" || key == "size" then " is-" + value
    else if key == "style" then (if value == "toggle-rounded" then " is-toggle" else "") + (" is-" + value)
    else ""
  }

  /** The classes a list of tag options adds, each option's in turn. */
  function TagClasses(options: seq<string>): string {
    if |options| == 0 then "" else TagClasses(options[..|options| - 1]) + OptionClasses(options[|options| - 1])
  }

  /** The loop of `processTag` that accumulates `classes`. */
  method CollectClasses(options: seq<string>) returns (classes: string)
    ensures classes == TagClasses(options)
  {
    classes := "";
    for k := 0 to |options|
      invariant classes == TagClasses(options[..k])
    {
      var key := Key(options[k]);
      var value := ValueText(options[k]);
      ghost var before := classes;
      OptionClassesBy(options[k], key, value);
      if key == "align" {
        classes := classes + (" is-" + value);
      } else if key == "size" {
        classes := classes + (" is-" + value);
      } else if key == "style" {
        if value == "toggle-rounded" {
          classes := classes + " is-toggle";
        }
        classes := classes + (" is-" + value);
        if value == "toggle-rounded" {
          Seqs.AppendAssoc(before, " is-toggle", " is-" + value);
        }
      }
      ClassesStep(options, k, before, classes);
    }
    Seqs.Whole(options);
  }

  /** The classes of an option whose key and value are known. */
  lemma OptionClassesBy(option: string, key: string, value: string)
    requires key == Key(option) && value == ValueText(option)
    ensures key == "align" || key == "size" ==> OptionClasses(option) == " is-" + value
    ensures key == "style" && value == "toggle-rounded" ==> OptionClasses(option) == " is-toggle" + " is-" + value
    ensures key == "style" && value != "toggle-rounded" ==> OptionClasses(option) == " is-" + value
    ensures key != "align" && key != "size" && key != "style" ==> OptionClasses(option) == ""
  {
  }

  /** One more option adds its classes after those of the options before it. */
  lemma ClassesStep(options: seq<string>, k: nat, before: string, after: string)
    requires k < |options| && before == TagClasses(options[..k]) && after == before + OptionClasses(options[k])
    ensures after == TagClasses(options[..k + 1])
  {
    Seqs.PrefixGrow(options, k);
  }

  /**
   * `align:x` and `size:x` add ` is-x`; `style:x` adds ` is-x`, after ` is-toggle` when `x` is
   * `toggle-rounded`; any other key adds nothing.
   */
  lemma OptionClassesOf(key: string, value: string)
    requires ':' !in key && ':' !in value
    ensures key == "align" || key == "size" ==> OptionClasses(key + ":" + value) == " is-" + value
    ensures key == "style" ==>
      OptionClasses(key + ":" + value) == (if value == "toggle-rounded" then " is-toggle" else "") + (" is-" + value)
    ensures key != "align" && key != "size" && key != "style" ==> OptionClasses(key + ":" + value) == ""
  {
    KeyValue(key, value);
  }

  /** A tab, as its options set it up; `id` starts as the generated id the caller passes. */
  datatype Tab = Tab(id: string, icon: string, title: string, active: bool)

  /** The icon markup `icon:x` sets. */
  function IconMarkup(value: string): string {
    "<span class=\"icon is-small ml-0\">\n                <i class=\"" + value
    + "\" aria-hidden=\"true\"></i>\n            </span>"
  }

  /** The tab after one more of its options. */
  function TabStep(tab: Tab, option: string): Tab {
    var key := Key(option);
    var value := ValueText(option);
    if key == "id" then tab.(id := value)
    else if key == "active" then tab.(active := true)
    else if key == "icon" then tab.(icon := IconMarkup(value))
    else if key == "title" then tab.(title := value)
    else tab
  }

  /** The tab after all its options, in order. */
  function TabAfter(tab: Tab, options: seq<string>): Tab {
    if |options| == 0 then tab else TabStep(TabAfter(tab, options[..|options| - 1]), options[|options| - 1])
  }

  /**
   * The loop of `processTag` over one tab's options, from the generated id and empty icon,
   * title and flag.
   */
  method ReadTab(generatedId: string, options: seq<string>) returns (tab: Tab)
    ensures tab == TabAfter(Tab(generatedId, "", "", false), options)
  {
    var id := generatedId;
    var icon := "";
    var title := "";
    var active := false;
    for k := 0 to |options|
      invariant Tab(id, icon, title, active) == TabAfter(Tab(generatedId, "", "", false), options[..k])
    {
      Seqs.PrefixGrow(options, k);
      var key := Key(options[k]);
      var value := ValueText(options[k]);
      if key == "id" {
        id := value;
      } else if key == "active" {
        active := true;
      } else if key == "icon" {
        icon := IconMarkup(value);
      } else if key == "title" {
        title := value;
      }
    }
    Seqs.Whole(options);
    tab := Tab(id, icon, title, active);
  }

  /**
   * Each field is set by the last option with its key: `id:x` gives the id `x` (the text
   * between the first and second colon), `active` makes the tab active, and a field no option
   * names keeps its starting value.
   */
  lemma {:induction false} TabFields(start: Tab, options: seq<string>)
    ensures TabAfter(start, options).id == LastValue(options, "id").GetOr(start.id)
    ensures TabAfter(start, options).title == LastValue(options, "title").GetOr(start.title)
    ensures TabAfter(start, options).icon ==
      (if LastValue(options, "icon").Some? then IconMarkup(LastValue(options, "icon").value) else start.icon)
    ensures TabAfter(start, options).active <==> start.active || LastValue(options, "active").Some?
  {
    if options != [] {
      var init := options[..|options| - 1];
      TabFields(start, init);
      TabStepFields(TabAfter(start, init), options[|options| - 1], init);
    }
  }

  /** One more option sets the field its key names, as the last option with that key. */
  lemma TabStepFields(before: Tab, option: string, init: seq<string>)
    ensures TabStep(before, option).id == (if Key(option) == "id" then ValueText(option) else before.id)
    ensures TabStep(before, option).title == (if Key(option) == "title" then ValueText(option) else before.title)
    ensures TabStep(before, option).icon == (if Key(option) == "icon" then IconMarkup(ValueText(option)) else before.icon)
    ensures TabStep(before, option).active <==> before.active || Key(option) == "active"
    ensures forall k :: LastValue(init + [option], k) == if Key(option) == k then Some(ValueText(option)) else LastValue(init, k)
  {
    assert (init + [option])[..|init|] == init;
  }

  /** The `li` of a tab is marked active exactly when the tab is. */
  function ItemClass(tab: Tab): (r: string)
    ensures tab.active <==> r != ""
  {
    if tab.active then " class=\"is-active\"" else ""
  }

  /** The content of a tab is hidden exactly when the tab is not active. */
  function ContentClass(tab: Tab): (r: string)
    ensures !tab.active <==> r == "tab-content is-hidden"
    ensures tab.active <==> r == "tab-content"
  {
    "tab-content" + (if tab.active then "" else " is-hidden")
  }
}
