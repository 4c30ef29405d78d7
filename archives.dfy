/**
 * The archive widget's data (the `Cacheable` transform of src/view/widget/archives.jsx): the
 * posts, already sorted by date, are grouped into runs of consecutive posts whose dates print
 * alike, each run with its count and the link to its archive page.
 *
 * Dates are not modelled: each post carries the year and month its date has after the time
 * zone and locale are applied, and `format` stands for `date.format(pattern)`. `urlFor` stands
 * for the `url_for` helper.
 */
module Archives {
  import opened Wrappers
  import opened JsString
  import JsValue
  import Seqs

  /** A post's date, as the transform reads it. */
  datatype Post = Post(instant: int, year: int, month: int)

  /** A post with its date printed: what the grouping looks at. */
  datatype Entry = Entry(name: string, year: int, month: int)

  /** One element of `data`: a run's printed date, the year and month of its first post, and its size. */
  datatype Group = Group(name: string, year: int, month: int, count: nat)

  /** One item of the result. */
  datatype Item = Item(name: string, count: nat, url: string)

  /** `format || (group_by === 'monthly' ? 'MMMM YYYY' : 'YYYY')`, an empty `format` counting as absent. */
  function Pattern(format: Option<string>, groupBy: string): (p: string)
    ensures format.Some? && format.value != "" ==> p == format.value
    ensures (format.None? || format.value == "") && groupBy == "monthly" ==> p == "MMMM YYYY"
    ensures (format.None? || format.value == "") && groupBy != "monthly" ==> p == "YYYY"
  {
    if format.Some? && format.value != "" then format.value
    else if groupBy == "monthly" then "MMMM YYYY" else "YYYY"
  }

  /** The effect of one post on `data`: a new run, or one more post in the last run. */
  function Push(data: seq<Group>, e: Entry): seq<Group> {
    if |data| == 0 || data[|data| - 1].name != e.name then data + [Group(e.name, e.year, e.month, 1)]
    else data[..|data| - 1] + [data[|data| - 1].(count := data[|data| - 1].count + 1)]
  }

  /** `data` after all the posts, in order. */
  function GroupsOf(entries: seq<Entry>): seq<Group> {
    if |entries| == 0 then [] else Push(GroupsOf(entries[..|entries| - 1]), entries[|entries| - 1])
  }

  /** The grouping loop: `data` and its `length`, with `lastData.count++` in place of a new element. */
  method GroupPosts(entries: seq<Entry>) returns (data: seq<Group>)
    ensures data == GroupsOf(entries)
  {
    data := [];
    var length := 0;
    for k := 0 to |entries|
      invariant data == GroupsOf(entries[..k]) && length == |data|
    {
      Seqs.PrefixGrow(entries, k);
      var e := entries[k];
      if length == 0 || data[length - 1].name != e.name {
        data := data + [Group(e.name, e.year, e.month, 1)];
        length := |data|;
      } else {
        var lastData := data[length - 1];
        data := data[..length - 1] + [lastData.(count := lastData.count + 1)];
      }
    }
    Seqs.Whole(entries);
  }

  // ---------------------------------------------------------------------------------------
  // What the grouping guarantees.
  // ---------------------------------------------------------------------------------------

  /** The number of posts the groups stand for. */
  function Total(data: seq<Group>): nat {
    if |data| == 0 then 0 else Total(data[..|data| - 1]) + data[|data| - 1].count
  }

  /** Every group holds a post, and neighbouring groups print differently. */
  ghost predicate Runs(data: seq<Group>) {
    && (forall i :: 0 <= i < |data| ==> data[i].count >= 1)
    && (forall i :: 0 < i < |data| ==> data[i - 1].name != data[i].name)
  }

  /** Each group's count as that many copies of its name: what it stands for. */
  function Expand(data: seq<Group>): seq<string> {
    if |data| == 0 then [] else Expand(data[..|data| - 1]) + seq(data[|data| - 1].count, _ => data[|data| - 1].name)
  }

  function Names(entries: seq<Entry>): (r: seq<string>)
    ensures |r| == |entries| && forall i :: 0 <= i < |r| ==> r[i] == entries[i].name
  {
    seq(|entries|, i requires 0 <= i < |entries| => entries[i].name)
  }

  /** The counts add up to the number of posts, and there are groups exactly when there are posts. */
  lemma {:induction false} GroupsTotal(entries: seq<Entry>)
    ensures Total(GroupsOf(entries)) == |entries|
    ensures |GroupsOf(entries)| == 0 <==> |entries| == 0
  {
    if |entries| > 0 {
      var init := entries[..|entries| - 1];
      GroupsTotal(init);
      var data := GroupsOf(init);
      var e := entries[|entries| - 1];
      if |data| > 0 && data[|data| - 1].name == e.name {
        var last := |data| - 1;
        var next := data[..last] + [data[last].(count := data[last].count + 1)];
        assert next[..last] == data[..last];
        assert Total(data) == Total(data[..last]) + data[last].count;
      } else {
        assert (data + [Group(e.name, e.year, e.month, 1)])[..|data|] == data;
      }
    }
  }

  /** Each count is at least one, and neighbouring groups print differently. */
  lemma {:induction false} GroupsRuns(entries: seq<Entry>)
    ensures Runs(GroupsOf(entries))
  {
    if |entries| > 0 {
      GroupsRuns(entries[..|entries| - 1]);
      RunsPush(GroupsOf(entries[..|entries| - 1]), entries[|entries| - 1]);
    }
  }

  /** One more post keeps the groups runs. */
  lemma RunsPush(data: seq<Group>, e: Entry)
    requires Runs(data)
    ensures Runs(Push(data, e))
  {
    if |data| > 0 && data[|data| - 1].name == e.name {
      var last := |data| - 1;
      var next := data[..last] + [data[last].(count := data[last].count + 1)];
      assert forall i :: 0 <= i < last ==> next[i] == data[i];
      assert next[last].name == data[last].name;
    } else {
      var next := data + [Group(e.name, e.year, e.month, 1)];
      assert forall i :: 0 <= i < |data| ==> next[i] == data[i];
    }
  }

  /** Writing each group's name `count` times gives back the names of the posts, in order. */
  lemma {:induction false} GroupsExpand(entries: seq<Entry>)
    ensures Expand(GroupsOf(entries)) == Names(entries)
  {
    if |entries| > 0 {
      var init := entries[..|entries| - 1];
      var e := entries[|entries| - 1];
      GroupsExpand(init);
      ExpandPush(GroupsOf(init), e);
      NamesLast(entries);
    }
  }

  lemma NamesLast(entries: seq<Entry>)
    requires |entries| > 0
    ensures Names(entries) == Names(entries[..|entries| - 1]) + [entries[|entries| - 1].name]
  {
  }

  /** One more post adds its name to what the groups stand for. */
  lemma ExpandPush(data: seq<Group>, e: Entry)
    ensures Expand(Push(data, e)) == Expand(data) + [e.name]
  {
    if |data| > 0 && data[|data| - 1].name == e.name {
      var last := |data| - 1;
      var g := data[last];
      var next := data[..last] + [g.(count := g.count + 1)];
      assert next[..last] == data[..last];
      Seqs.LastSplit(data);
      var front := Expand(data[..last]);
      assert Expand(data) == front + seq(g.count, _ => g.name);
      assert seq(g.count + 1, _ => g.name) == seq(g.count, _ => g.name) + [e.name];
      Seqs.AppendAssoc(front, seq(g.count, _ => g.name), [e.name]);
    } else {
      var next := data + [Group(e.name, e.year, e.month, 1)];
      assert next[..|data|] == data;
      assert seq(1, _ => e.name) == [e.name];
    }
  }

  /** Each group's year and month are those of its first post, the post after the ones before it. */
  lemma {:induction false} GroupsStart(entries: seq<Entry>, i: nat)
    requires i < |GroupsOf(entries)|
    ensures Total(GroupsOf(entries)[..i]) < |entries|
    ensures var data := GroupsOf(entries); var first := entries[Total(data[..i])];
      data[i].name == first.name && data[i].year == first.year && data[i].month == first.month
  {
    var init := entries[..|entries| - 1];
    var e := entries[|entries| - 1];
    var data := GroupsOf(init);
    GroupsTotal(init);
    assert GroupsOf(entries) == Push(data, e);
    PushPrefix(data, e, i);
    if i < |data| {
      GroupsStart(init, i);
      TotalPrefix(data, i);
      var t := Total(data[..i]);
      assert entries[t] == init[t];
    }
  }

  /** One more post leaves the groups before the last as they were, and may start a group. */
  lemma PushPrefix(data: seq<Group>, e: Entry, i: nat)
    requires i < |Push(data, e)|
    ensures i <= |data|
    ensures i < |data| ==> var g := Push(data, e)[i];
      Push(data, e)[..i] == data[..i] && g.name == data[i].name && g.year == data[i].year && g.month == data[i].month
    ensures i == |data| ==> Push(data, e)[..i] == data && Push(data, e)[i] == Group(e.name, e.year, e.month, 1)
  {
    var next := Push(data, e);
    if |data| > 0 && data[|data| - 1].name == e.name {
      assert next[..i] == data[..i];
    } else {
      assert next[..i] == data[..i];
      assert data[..|data|] == data;
    }
  }

  /** A prefix of the groups stands for no more posts than all of them. */
  lemma {:induction false} TotalPrefix(data: seq<Group>, i: nat)
    requires i <= |data|
    ensures Total(data[..i]) <= Total(data)
    decreases |data|
  {
    if i < |data| {
      assert data[..|data| - 1][..i] == data[..i];
      TotalPrefix(data[..|data| - 1], i);
    } else {
      assert data[..i] == data;
    }
  }

  // ---------------------------------------------------------------------------------------
  // Links and the transform.
  // ---------------------------------------------------------------------------------------

  /** The month as the link writes it: a `0` before a one-digit number. */
  function MonthText(month: int): string {
    (if month < 10 then "0" else "") + IntToString(month)
  }

  /** `link(item)` before `url_for`: `<archive_dir>/<year>/`, and `<month>/` after it when monthly. */
  function Link(archiveDir: JsValue.Value, groupBy: string, year: int, month: int): string {
    var url := JsValue.ToStr(archiveDir) + "/" + IntToString(year) + "/";
    if groupBy == "monthly" then url + MonthText(month) + "/" else url
  }

  /** A calendar month is written with exactly two digits that read as the month. */
  lemma MonthTwoDigits(month: int)
    requires 1 <= month <= 12
    ensures |MonthText(month)| == 2 && AllDigits(MonthText(month))
    ensures 10 * DigitValue(MonthText(month)[0]) + DigitValue(MonthText(month)[1]) == month
  {
    if month >= 10 {
      assert NatToString(month) == NatToString(month / 10) + [DigitChar(month % 10)];
      assert NatToString(month / 10) == [DigitChar(1)];
    }
  }

  /** The result items: each group's name and count, and its link, in group order. */
  function ItemsOf(data: seq<Group>, archiveDir: JsValue.Value, groupBy: string, urlFor: string -> string): (r: seq<Item>)
    ensures |r| == |data|
    ensures forall i :: 0 <= i < |r| ==>
      r[i].name == data[i].name && r[i].count == data[i].count
      && r[i].url == urlFor(Link(archiveDir, groupBy, data[i].year, data[i].month))
  {
    seq(|data|, i requires 0 <= i < |data| =>
      Item(data[i].name, data[i].count, urlFor(Link(archiveDir, groupBy, data[i].year, data[i].month))))
  }

  /** Each post with its date printed in the chosen pattern. */
  function EntriesOf(posts: seq<Post>, pattern: string, format: (Post, string) -> string): (r: seq<Entry>)
    ensures |r| == |posts|
    ensures forall i :: 0 <= i < |r| ==> r[i] == Entry(format(posts[i], pattern), posts[i].year, posts[i].month)
  {
    seq(|posts|, i requires 0 <= i < |posts| => Entry(format(posts[i], pattern), posts[i].year, posts[i].month))
  }

  /**
   * The transform: `null` without posts, otherwise one item per run of posts. The `title` and
   * `showCount` it also returns are not part of this model.
   */
  method Transform(posts: seq<Post>, formatOption: Option<string>, groupBy: string, archiveDir: JsValue.Value,
                   format: (Post, string) -> string, urlFor: string -> string)
    returns (r: Option<seq<Item>>)
    ensures |posts| == 0 <==> r.None?
    ensures r.Some? ==>
      r.value == ItemsOf(GroupsOf(EntriesOf(posts, Pattern(formatOption, groupBy), format)), archiveDir, groupBy, urlFor)
  {
    if |posts| == 0 {
      return None;
    }
    var pattern := Pattern(formatOption, groupBy);
    var data := GroupPosts(EntriesOf(posts, pattern, format));
    return Some(ItemsOf(data, archiveDir, groupBy, urlFor));
  }
}
