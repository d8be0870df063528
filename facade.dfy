/** The facade pattern example: a page maker hides a mail-to-name database
    and a markdown writer behind one call that builds a welcome page. */
module Facade {
  import opened Common
  import opened GoStrings

  /** The fixed database of the example; nothing writes to it. */
  const Db: map<string, string> := map["a@a.com" := "a", "b@b.com" := "b"]

  const Greeting: string := "# Welcome to "
  const Ending: string := "'s page!"

  /** database.getNameByMail: the stored name, or the empty string (Go's
      zero value) for an unknown mail. Every stored name is non-empty, so
      the empty result signals exactly an unknown mail. */
  function GetNameByMail(mail: string): (name: string)
    ensures mail in Db ==> name == Db[mail]
    ensures name == "" <==> mail !in Db
  {
    if mail in Db then Db[mail] else ""
  }

  /** Reads the name back out of a welcome page. */
  function NameOfPage(page: string): (r: Option<string>)
    ensures r.Some? ==> page == Greeting + r.value + Ending
  {
    if |page| >= |Greeting| + |Ending|
       && page[..|Greeting|] == Greeting
       && page[|page| - |Ending|..] == Ending
    then
      var name := page[|Greeting|..|page| - |Ending|];
      assert page == page[..|Greeting|] + name + page[|page| - |Ending|..];
      Some(name)
    else None
  }

  /** mdWriter.title. The page is a faithful encoding of the name: it
      reads back. */
  function Title(title: string): (page: string)
    ensures NameOfPage(page) == Some(title)
  {
    var page := Greeting + title + Ending;
    assert page[..|Greeting|] == Greeting;
    assert page[|page| - |Ending|..] == Ending;
    assert page[|Greeting|..|page| - |Ending|] == title;
    page
  }

  /** PageMaker.MakeWelcomePage: the page of a known mail names its owner;
      an unknown mail greets the empty name. */
  function MakeWelcomePage(mail: string): (page: string)
    ensures NameOfPage(page) == Some(if mail in Db then Db[mail] else "")
  {
    Title(GetNameByMail(mail))
  }

  /** Hence different names give different pages. */
  lemma TitleInjective(a: string, b: string)
    requires Title(a) == Title(b)
    ensures a == b
  {
    assert NameOfPage(Title(a)) == Some(a);
  }

  /** The two pages of the example. */
  lemma ExamplePages()
    ensures MakeWelcomePage("a@a.com") == "# Welcome to a's page!"
    ensures MakeWelcomePage("b@b.com") == "# Welcome to b's page!"
    ensures MakeWelcomePage("c@c.com") == "# Welcome to 's page!"
  {
  }
}
