/**
 * The `{% message %}` tag (src/hexo/tag/message.js): its options become the classes of a
 * Bulma message box, an icon and a title, and a header is shown when either is set. The
 * markdown renderer is a parameter, `render`, about which nothing is assumed.
 */
module Message {
  import opened Wrappers
  import opened TagOptions
  import Seqs

  /** What the option loop accumulates. */
  datatype Box = Box(icon: string, title: string, classes: string)

  /** The icon element an `icon:` option sets. */
  function IconMarkup(value: string): (r: string)
    ensures r != ""
  {
    "<i class=\"" + value + " mr-2\"></i>"
  }

  /** The classes an option adds: ` is-<value>` for `size` and `color`, nothing for any other key. */
  function OptionClasses(option: string): string {
    var key := Key(option);
    if key == "size" || key == "color" then " is-" + ValueText(option) else ""
  }

  /** The effect of one option on the box. */
  function Step(box: Box, option: string): Box {
    var key := Key(option);
    var value := ValueText(option);
    if key == "icon" then box.(icon := IconMarkup(value))
    else if key == "title" then box.(title := value)
    else box.(classes := box.classes + OptionClasses(option))
  }

  /** The box after all the options, in order, starting from empty strings. */
  function BoxAfter(options: seq<string>): Box {
    if |options| == 0 then Box("", "", "") else Step(BoxAfter(options[..|options| - 1]), options[|options| - 1])
  }

  /** The classes of each option, concatenated in option order. */
  function AllClasses(options: seq<string>): string {
    if |options| == 0 then "" else OptionClasses(options[0]) + AllClasses(options[1..])
  }

  /** The header div, present exactly when the icon or the title is set. */
  function Header(box: Box, render: string -> string): (r: string)
    ensures r != "" <==> box.icon != "" || box.title != ""
  {
    if box.icon != "" || box.title != "" then "<div class=\"message-header\">" + render(box.icon + box.title) + "</div>"
    else ""
  }

  /** The article element: the accumulated classes after `message`, the header, the rendered body. */
  function Article(box: Box, content: string, render: string -> string): string {
    "<article class=\"message" + box.classes + "\">\n        " + Header(box, render)
      + "\n        <div class=\"message-body\">\n            " + render(content)
      + "\n        </div>\n    </article>"
  }

  /** `processTag(options, content)`. */
  method ProcessTag(options: seq<string>, content: string, render: string -> string) returns (html: string)
    ensures html == Article(BoxAfter(options), content, render)
  {
    var icon := "";
    var title := "";
    var classes := "";
    var header := "";
    for k := 0 to |options|
      invariant Box(icon, title, classes) == BoxAfter(options[..k])
    {
      var key := Key(options[k]);
      var value := ValueText(options[k]);
      if key == "size" {
        classes := classes + (" is-" + value);
      } else if key == "color" {
        classes := classes + (" is-" + value);
      } else if key == "icon" {
        icon := "<i class=\"" + value + " mr-2\"></i>";
      } else if key == "title" {
        title := value;
      }
      Seqs.PrefixGrow(options, k);
    }
    Seqs.Whole(options);
    if icon != "" || title != "" {
      var inner := render(icon + title);
      header := "<div class=\"message-header\">" + inner + "</div>";
    }
    html := "<article class=\"message" + classes + "\">\n        " + header
      + "\n        <div class=\"message-body\">\n            " + render(content)
      + "\n        </div>\n    </article>";
  }

  /** The classes are those of every option, in option order. */
  lemma {:induction false} ClassesInOrder(options: seq<string>)
    ensures BoxAfter(options).classes == AllClasses(options)
  {
    if |options| > 0 {
      var init := options[..|options| - 1];
      var last := options[|options| - 1];
      ClassesInOrder(init);
      AllClassesAppend(init, last);
      Seqs.LastSplit(options);
    }
  }

  lemma {:induction false} AllClassesAppend(a: seq<string>, o: string)
    ensures AllClasses(a + [o]) == AllClasses(a) + OptionClasses(o)
  {
    if |a| == 0 {
      assert [o][1..] == [];
    } else {
      Seqs.AppendTail(a, o);
      AllClassesAppend(a[1..], o);
      assert (a + [o])[0] == a[0];
      Seqs.AppendAssoc(OptionClasses(a[0]), AllClasses(a[1..]), OptionClasses(o));
    }
  }

  /** The icon is that of the last `icon` option, the title the value of the last `title` option. */
  lemma {:induction false} LastWins(options: seq<string>)
    ensures BoxAfter(options).icon == match LastValue(options, "icon") case None => "" case Some(v) => IconMarkup(v)
    ensures BoxAfter(options).title == LastValue(options, "title").GetOr("")
  {
    if |options| > 0 {
      LastWins(options[..|options| - 1]);
    }
  }

  /**
   * A header is shown exactly when some option sets an icon, or the last `title` option has a
   * non-empty value.
   */
  lemma HeaderShown(options: seq<string>, render: string -> string)
    ensures Header(BoxAfter(options), render) != "" <==>
      (exists k :: 0 <= k < |options| && Key(options[k]) == "icon")
      || LastValue(options, "title").GetOr("") != ""
  {
    LastWins(options);
    LastValueSome(options, "icon");
  }

  /** `size:<s>` and `color:<c>` each add their class, in either order. */
  lemma SizeAndColor(first: string, second: string, a: string, b: string)
    requires first in {"size", "color"} && second in {"size", "color"}
    requires ':' !in a && ':' !in b
    ensures BoxAfter([first + ":" + a, second + ":" + b]) == Box("", "", " is-" + a + " is-" + b)
  {
    var options := [first + ":" + a, second + ":" + b];
    KeyValue(first, a);
    KeyValue(second, b);
    assert options[..1] == [first + ":" + a];
    assert options[..1][..0] == [];
    assert BoxAfter(options[..1]) == Box("", "", " is-" + a);
    assert BoxAfter(options) == Step(Box("", "", " is-" + a), second + ":" + b);
    assert " is-" + a + (" is-" + b) == " is-" + a + " is-" + b;
  }
}
