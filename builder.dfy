/** The builder pattern example: a director assembles a markdown text from
    a title, a subtitle, a bullet list and a closing blank line, using the
    text builder's parts. */
module Builder {
  import opened Common
  import opened GoStrings

  /** "# " + title + "\n". */
  function MakeTitle(title: string): (r: string)
    ensures |r| == |title| + 3 && r[..2] == "# " && r[2..|r| - 1] == title && r[|r| - 1] == '\n'
  {
    "# " + title + "\n"
  }

  /** "## " + str + "\n". */
  function MakeString(str: string): (r: string)
    ensures |r| == |str| + 4 && r[..3] == "## " && r[3..|r| - 1] == str && r[|r| - 1] == '\n'
  {
    "## " + str + "\n"
  }

  /** One bullet line. */
  function Item(item: string): string {
    "- " + item + "\n"
  }

  /** The bullet lines of `items`, in order. */
  function Items(items: seq<string>): string
    decreases |items|
  {
    if |items| == 0 then "" else Item(items[0]) + Items(items[1..])
  }

  /** The closing blank line. */
  function Close(): (r: string)
    ensures r == "\n"
  {
    "\n"
  }

  /** The text Construct assembles from its parts. */
  function Document(title: string, str: string, items: seq<string>): string {
    MakeTitle(title) + MakeString(str) + Items(items) + Close()
  }

  /** Appending an item appends its bullet line. */
  lemma {:induction false} ItemsAppend(items: seq<string>, item: string)
    ensures Items(items + [item]) == Items(items) + Item(item)
    decreases |items|
  {
    if |items| == 0 {
      assert [] + [item] == [item];
      assert [item][1..] == [];
    } else {
      assert (items + [item])[0] == items[0];
      assert (items + [item])[1..] == items[1..] + [item];
      ItemsAppend(items[1..], item);
    }
  }

  /** makeItems: the loop that appends one bullet line per item. */
  method MakeItems(items: seq<string>) returns (result: string)
    ensures result == Items(items)
  {
    result := "";
    var i := 0;
    while i < |items|
      invariant 0 <= i <= |items|
      invariant result == Items(items[..i])
    {
      ItemsAppend(items[..i], items[i]);
      assert items[..i + 1] == items[..i] + [items[i]];
      result := result + Item(items[i]);
      i := i + 1;
    }
    assert items[..i] == items;
  }

  /** Director.Construct with the text builder. */
  method Construct() returns (result: string)
    ensures result == Document("Title", "String", ["Item1", "Item2"])
    ensures result == "# Title\n" + "## String\n" + "- Item1\n" + "- Item2\n" + "\n"
  {
    result := MakeTitle("Title");
    result := result + MakeString("String");
    var items := MakeItems(["Item1", "Item2"]);
    result := result + items;
    result := result + Close();
    ExampleDocument();
  }

  /** The text the example prints, line by line. */
  lemma ExampleDocument()
    ensures Document("Title", "String", ["Item1", "Item2"])
      == "# Title\n" + "## String\n" + "- Item1\n" + "- Item2\n" + "\n"
  {
    assert Items(["Item1", "Item2"]) == "- Item1\n" + "- Item2\n" by {
      assert ["Item1", "Item2"][1..] == ["Item2"] && ["Item2"][1..] == [];
    }
  }

  // ---------------------------------------------------------------------
  // Reading the document back: its lines are the title, the subtitle, the
  // bullets and two empty lines (the closing one and the one after it).
  // ---------------------------------------------------------------------

  /** The first newline of `a + "\n" + rest` is the one after `a`. */
  lemma {:induction false} FirstNewline(a: string, rest: string)
    requires '\n' !in a
    ensures IndexOf(a + "\n" + rest, "\n") == |a|
    decreases |a|
  {
    var s := a + "\n" + rest;
    if |a| == 0 {
      assert s == "\n" + rest && s[..1] == "\n";
    } else {
      assert s[..1] == [a[0]];
      assert !IsPrefix("\n", s);
      assert s[1..] == a[1..] + "\n" + rest;
      FirstNewline(a[1..], rest);
    }
  }

  lemma SplitLine(a: string, rest: string)
    requires '\n' !in a
    ensures SplitOn(a + "\n" + rest, "\n") == [a] + SplitOn(rest, "\n")
  {
    var s := a + "\n" + rest;
    FirstNewline(a, rest);
    assert s[..|a|] == a && s[|a| + 1..] == rest;
  }

  /** The bullet lines of `items` without their newlines. */
  function Bullets(items: seq<string>): (r: seq<string>)
    ensures |r| == |items| && forall i :: 0 <= i < |items| ==> r[i] == "- " + items[i]
    decreases |items|
  {
    if |items| == 0 then [] else ["- " + items[0]] + Bullets(items[1..])
  }

  lemma NoNewline(p: string, x: string)
    requires '\n' !in p && '\n' !in x
    ensures '\n' !in p + x
  {
  }

  /** The lines of the bullet list followed by `rest`. */
  lemma {:induction false} ItemLines(items: seq<string>, rest: string)
    requires forall i :: 0 <= i < |items| ==> '\n' !in items[i]
    ensures SplitOn(Items(items) + rest, "\n") == Bullets(items) + SplitOn(rest, "\n")
    decreases |items|
  {
    if |items| == 0 {
      assert Items(items) + rest == rest;
    } else {
      var line := "- " + items[0];
      var tail := Items(items[1..]) + rest;
      var b := Bullets(items[1..]);
      var st := SplitOn(rest, "\n");
      assert SplitOn(Items(items) + rest, "\n") == [line] + (b + st) by {
        NoNewline("- ", items[0]);
        ItemLines(items[1..], rest);
        ItemsCons(items, rest);
        SplitLine(line, tail);
      }
      assert Bullets(items) == [line] + b;
      AppendAssoc([line], b, st);
    }
  }

  lemma ItemsCons(items: seq<string>, rest: string)
    requires |items| > 0
    ensures Items(items) + rest == ("- " + items[0]) + "\n" + (Items(items[1..]) + rest)
  {
  }

  /** Splitting the document into lines recovers its parts, as long as
      none of them contains a newline. */
  lemma DocumentLines(title: string, str: string, items: seq<string>)
    requires '\n' !in title && '\n' !in str
    requires forall i :: 0 <= i < |items| ==> '\n' !in items[i]
    ensures Split(Document(title, str, items), "\n")
      == ["# " + title, "## " + str] + Bullets(items) + ["", ""]
  {
    var t := "# " + title;
    var s := "## " + str;
    NoNewline("# ", title);
    NoNewline("## ", str);
    var body := Items(items) + "\n";
    DocumentShape(title, str, items);
    ItemLines(items, "\n");
    LastLines();
    var l1 := SplitOn(body, "\n");
    assert l1 == Bullets(items) + ["", ""];
    SplitLine(s, body);
    var l2 := SplitOn(s + "\n" + body, "\n");
    assert l2 == [s] + l1;
    SplitLine(t, s + "\n" + body);
    assert Split(Document(title, str, items), "\n") == [t] + l2;
    Regroup(t, s, Bullets(items), ["", ""]);
  }

  lemma Regroup<T>(x: T, y: T, c: seq<T>, d: seq<T>)
    ensures [x] + ([y] + (c + d)) == [x, y] + c + d
  {
  }

  lemma DocumentShape(title: string, str: string, items: seq<string>)
    ensures Document(title, str, items)
      == ("# " + title) + "\n" + (("## " + str) + "\n" + (Items(items) + "\n"))
  {
  }

  lemma LastLines()
    ensures SplitOn("\n", "\n") == ["", ""]
  {
    SplitLine("", "");
    assert "" + "\n" + "" == "\n";
    assert SplitOn("", "\n") == [""];
  }
}
