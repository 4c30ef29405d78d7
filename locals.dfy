/**
 * The `template_locals` filter (src/hexo/filter/locals.js): the configuration a page is
 * rendered with is layered from the site config, the theme config, the layout config of
 * `post`/`page` layouts and the page's own front-matter, each overriding the ones before it.
 * Configs are objects, modelled as association lists in key order (module Assoc). Reading
 * files and parsing YAML are left to the caller: a layout config file is given as its parsed
 * document, or `None` when it does not exist. Which front-matter keys hold functions is given
 * as a set, since values here are never functions.
 */
module Locals {
  import opened Wrappers
  import JsString
  import opened JsValue
  import Assoc
  import Seqs

  type Config = seq<(string, Value)>

  // ---------------------------------------------------------------------------------------
  // loadLayoutConfig
  // ---------------------------------------------------------------------------------------

  /** `Object.assign` of every existing document, in order, onto `{}`. */
  function LayoutConfig(documents: seq<Option<Value>>): (r: Config)
    ensures Assoc.UniqueKeys(r)
  {
    if |documents| == 0 then []
    else
      var init := LayoutConfig(documents[..|documents| - 1]);
      match documents[|documents| - 1]
      case None => init
      case Some(d) => Assoc.Assign(init, OwnEntries(d))
  }

  /**
   * `loadLayoutConfig(layout)` after the file lookups: `documents` holds what `yaml.load` gives
   * for `_config.<layout>.yml` in the site directory and then in the theme directory, `None`
   * for a file that does not exist.
   */
  method LoadLayoutConfig(documents: seq<Option<Value>>) returns (config: Config)
    ensures config == LayoutConfig(documents)
  {
    config := [];
    for k := 0 to |documents|
      invariant config == LayoutConfig(documents[..k])
    {
      Seqs.PrefixGrow(documents, k);
      if documents[k].Some? {
        config := Assoc.Assign(config, OwnEntries(documents[k].value));
      }
    }
    Seqs.Whole(documents);
  }

  /** What a JavaScript object always satisfies: no key twice among its own entries. */
  predicate WellFormed(v: Value) {
    Assoc.UniqueKeys(OwnEntries(v))
  }

  /** The theme-directory file overrides the site-directory file key by key; a missing file adds nothing. */
  lemma ThemeFileWins(site: Option<Value>, theme: Option<Value>, k: string)
    requires site.Some? ==> WellFormed(site.value)
    requires theme.Some? ==> WellFormed(theme.value)
    ensures Assoc.Get(LayoutConfig([site, theme]), k) ==
      if theme.Some? && k in Assoc.Keys(OwnEntries(theme.value)) then Assoc.Get(OwnEntries(theme.value), k)
      else if site.Some? then Assoc.Get(OwnEntries(site.value), k)
      else None
  {
    var docs := [site, theme];
    assert docs[..1] == [site];
    assert docs[..1][..0] == [];
    assert LayoutConfig([]) == [];
    var empty: Config := [];
    assert Assoc.Get(empty, k) == None;
  }

  // ---------------------------------------------------------------------------------------
  // stripConfig
  // ---------------------------------------------------------------------------------------

  /** Whether `stripConfig` copies a key: no leading `_`, not reserved, not function-valued. */
  predicate Kept(key: string, reserved: seq<string>, functions: set<string>) {
    !JsString.StartsWith(key, "_") && key !in reserved && key !in functions
  }

  /**
   * `stripConfig(source, reservedKeys)`: the kept keys of `source`, in key order, each with its
   * value unchanged. `functions` names the keys whose values are functions.
   */
  function StripConfig(source: Config, reserved: seq<string>, functions: set<string>): (r: Config)
    ensures Assoc.UniqueKeys(r)
    ensures forall k :: k in Assoc.Keys(r) <==> k in Assoc.Keys(source) && Kept(k, reserved, functions)
  {
    if |source| == 0 then []
    else
      var init := source[..|source| - 1];
      var last := source[|source| - 1];
      var r := StripConfig(init, reserved, functions);
      Seqs.LastSplit(source);
      Assoc.KeysAppend(init, last);
      if Kept(last.0, reserved, functions) then Assoc.Put(r, last.0, last.1) else r
  }

  /** Each kept key maps to its value in the source, and no other key is present. */
  lemma {:induction false} StripValues(source: Config, reserved: seq<string>, functions: set<string>, k: string)
    requires Assoc.UniqueKeys(source)
    ensures Assoc.Get(StripConfig(source, reserved, functions), k) ==
      if Kept(k, reserved, functions) then Assoc.Get(source, k) else None
  {
    if |source| > 0 {
      var init := source[..|source| - 1];
      var last := source[|source| - 1];
      Seqs.LastSplit(source);
      Assoc.UniqueAppend(init, last);
      Assoc.GetAppend(init, last, k);
      StripValues(init, reserved, functions, k);
    }
  }

  // ---------------------------------------------------------------------------------------
  // The `template_locals` filter.
  // ---------------------------------------------------------------------------------------

  /** `page[key]` on a page that is truthy: `undefined` unless the page is an object holding it. */
  function PageField(page: Value, key: string): Value {
    if page.Obj? then Assoc.Get(page.entries, key).GetOr(Undef) else Undef
  }

  /** `page.layout in ALTERNATIVE_CONFIG`: the `in` operator compares the key's text. */
  function LayoutName(page: Value): Option<string> {
    var name := ToStr(PageField(page, "layout"));
    if name == "post" || name == "page" then Some(name) else None
  }

  /**
   * Which layout config a page picks: `post` or `page` when its `layout` prints as that text
   * (as the `in` operator converts its key), and none for any other layout, a page without one,
   * or a page that is not an object.
   */
  lemma LayoutNameCases(page: Value, layout: Value)
    ensures !page.Obj? ==> LayoutName(page) == None
    ensures page.Obj? && Assoc.Get(page.entries, "layout").None? ==> LayoutName(page) == None
    ensures page.Obj? && Assoc.Get(page.entries, "layout") == Some(layout) ==>
      (LayoutName(page).Some? <==> ToStr(layout) == "post" || ToStr(layout) == "page")
      && (layout.Str? && LayoutName(page).Some? ==> LayoutName(page).value == layout.s)
  {
  }

  /** The front-matter `template_locals` copies: `__post === true` first, then `__page === true`. */
  function FrontMatter(page: Value, reservedPost: seq<string>, reservedPage: seq<string>, functions: set<string>): (r: Config)
    ensures Assoc.UniqueKeys(r)
  {
    if PageField(page, "__post") == Bool(true) then StripConfig(OwnEntries(page), reservedPost, functions)
    else if PageField(page, "__page") == Bool(true) then StripConfig(OwnEntries(page), reservedPage, functions)
    else []
  }

  /**
   * The settings the theme was registered with: the reserved keys of the post and page models
   * and the layout configs loaded at that time.
   */
  class LocalsFilter {
    const reservedPost: seq<string>
    const reservedPage: seq<string>
    const postConfig: Config
    const pageConfig: Config

    /** Registration: both layout configs are loaded once. */
    constructor (reservedPost: seq<string>, reservedPage: seq<string>,
                 postDocuments: seq<Option<Value>>, pageDocuments: seq<Option<Value>>)
      ensures this.reservedPost == reservedPost && this.reservedPage == reservedPage
      ensures postConfig == LayoutConfig(postDocuments) && pageConfig == LayoutConfig(pageDocuments)
      ensures Valid()
    {
      this.reservedPost := reservedPost;
      this.reservedPage := reservedPage;
      var post := LoadLayoutConfig(postDocuments);
      var page := LoadLayoutConfig(pageDocuments);
      postConfig := post;
      pageConfig := page;
    }

    /** The layout configs are objects: no key twice. */
    predicate Valid() {
      Assoc.UniqueKeys(postConfig) && Assoc.UniqueKeys(pageConfig)
    }

    /** `ALTERNATIVE_CONFIG[name]`. */
    function Alternative(name: string): Config {
      if name == "post" then postConfig else pageConfig
    }

    /** The config a page sees: untouched without a page, layered with one. */
    function Layered(config: Value, theme: Value, page: Value, functions: set<string>): Value {
      if !Truthy(page) then config
      else
        var base := Assoc.Assign(Assoc.Assign([], OwnEntries(config)), OwnEntries(theme));
        var layered := match LayoutName(page)
          case None => base
          case Some(name) => Assoc.Assign(base, Alternative(name));
        Obj(Assoc.Assign(layered, FrontMatter(page, reservedPost, reservedPage, functions)))
    }

    /** The config part of the filter, applied to the page's locals in place. */
    method Apply(locals: PageLocals)
      modifies locals
      ensures locals.config == Layered(old(locals.config), locals.theme, locals.page, locals.pageFunctions)
      ensures locals.theme == old(locals.theme) && locals.page == old(locals.page)
      ensures locals.pageFunctions == old(locals.pageFunctions)
    {
      var page := locals.page;
      var functions := locals.pageFunctions;
      if Truthy(page) {
        var config := Obj(Assoc.Assign(Assoc.Assign([], OwnEntries(locals.config)), OwnEntries(locals.theme)));
        if LayoutName(page).Some? {
          config := Obj(Assoc.Assign(config.entries, Alternative(LayoutName(page).value)));
        }
        if PageField(page, "__post") == Bool(true) {
          config := Obj(Assoc.Assign(config.entries, StripConfig(OwnEntries(page), reservedPost, functions)));
        } else if PageField(page, "__page") == Bool(true) {
          config := Obj(Assoc.Assign(config.entries, StripConfig(OwnEntries(page), reservedPage, functions)));
        }
        locals.config := config;
      }
    }

    /**
     * Precedence, key by key: the stripped front-matter, then the layout config, then the theme
     * config, then the site config.
     */
    lemma Precedence(config: Value, theme: Value, page: Value, functions: set<string>, k: string)
      requires Valid() && Truthy(page) && WellFormed(config) && WellFormed(theme)
      ensures Layered(config, theme, page, functions).Obj?
      ensures var front := FrontMatter(page, reservedPost, reservedPage, functions);
        Assoc.Get(Layered(config, theme, page, functions).entries, k) ==
          if k in Assoc.Keys(front) then Assoc.Get(front, k)
          else if LayoutName(page).Some? && k in Assoc.Keys(Alternative(LayoutName(page).value))
          then Assoc.Get(Alternative(LayoutName(page).value), k)
          else if k in Assoc.Keys(OwnEntries(theme)) then Assoc.Get(OwnEntries(theme), k)
          else Assoc.Get(OwnEntries(config), k)
    {
      var front := FrontMatter(page, reservedPost, reservedPage, functions);
      var alt := match LayoutName(page) case None => [] case Some(name) => Alternative(name);
      Layers(OwnEntries(config), OwnEntries(theme), alt, front, k);
    }

    /** Reserved, underscore and function-valued keys of the front-matter never reach the config. */
    lemma FrontMatterStripped(config: Value, theme: Value, page: Value, functions: set<string>, k: string)
      requires Valid() && Truthy(page) && WellFormed(config) && WellFormed(theme)
      requires JsString.StartsWith(k, "_") || k in functions
        || (PageField(page, "__post") == Bool(true) && k in reservedPost)
        || (PageField(page, "__post") != Bool(true) && k in reservedPage)
      ensures Assoc.Get(Layered(config, theme, page, functions).entries, k) ==
        if LayoutName(page).Some? && k in Assoc.Keys(Alternative(LayoutName(page).value))
        then Assoc.Get(Alternative(LayoutName(page).value), k)
        else if k in Assoc.Keys(OwnEntries(theme)) then Assoc.Get(OwnEntries(theme), k)
        else Assoc.Get(OwnEntries(config), k)
    {
      FrontMatterOmits(page, functions, k);
      Precedence(config, theme, page, functions, k);
    }

    /** The front-matter the filter copies never holds such a key. */
    lemma FrontMatterOmits(page: Value, functions: set<string>, k: string)
      requires JsString.StartsWith(k, "_") || k in functions
        || (PageField(page, "__post") == Bool(true) && k in reservedPost)
        || (PageField(page, "__post") != Bool(true) && k in reservedPage)
      ensures k !in Assoc.Keys(FrontMatter(page, reservedPost, reservedPage, functions))
    {
    }

    /** Without a page the config is left as it is. */
    lemma NoPage(config: Value, theme: Value, page: Value, functions: set<string>)
      requires !Truthy(page)
      ensures Layered(config, theme, page, functions) == config
    {
    }
  }

  /** Four layers of `Object.assign` onto `{}`: each key is read from the last layer that has it. */
  lemma Layers(site: Config, theme: Config, alt: Config, front: Config, k: string)
    requires Assoc.UniqueKeys(site) && Assoc.UniqueKeys(theme) && Assoc.UniqueKeys(alt) && Assoc.UniqueKeys(front)
    ensures Assoc.Get(Assoc.Assign(Assoc.Assign(Assoc.Assign(Assoc.Assign([], site), theme), alt), front), k) ==
      if k in Assoc.Keys(front) then Assoc.Get(front, k)
      else if k in Assoc.Keys(alt) then Assoc.Get(alt, k)
      else if k in Assoc.Keys(theme) then Assoc.Get(theme, k)
      else Assoc.Get(site, k)
  {
    var empty: Config := [];
    assert Assoc.Get(empty, k) == None;
  }

  /** The locals of one page render that the filter reads and writes. */
  class PageLocals {
    var config: Value
    var theme: Value
    var page: Value
    /** The front-matter keys whose values are functions. */
    var pageFunctions: set<string>

    constructor (config: Value, theme: Value, page: Value, pageFunctions: set<string>)
      ensures this.config == config && this.theme == theme && this.page == page
      ensures this.pageFunctions == pageFunctions
    {
      this.config := config;
      this.theme := theme;
      this.page := page;
      this.pageFunctions := pageFunctions;
    }
  }
}
