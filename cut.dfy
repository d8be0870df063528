/** The cut utility, applied to one input line: the line is split by the
    delimiter (a TAB by default) and the requested field is printed. */
module Cut {
  import opened GoStrings

  const DefaultDelimiter: string := "\t"

  /** The string printed for `line` under -f `fields`, -d `delimiter` and
      -s `separated`: the requested column when it exists; otherwise an
      empty line under -s and the line itself without it. */
  function Cut(line: string, fields: int, delimiter: string, separated: bool): (out: string)
    ensures var columns := Split(line, delimiter);
      0 < fields <= |columns| ==> out == columns[fields - 1]
    ensures var columns := Split(line, delimiter);
      !(0 < fields <= |columns|) ==> out == (if separated then "" else line)
  {
    var columns := Split(line, delimiter);
    if separated then
      if fields > 0 && |columns| >= fields then columns[fields - 1] else ""
    else
      if fields > 0 && |columns| >= fields then columns[fields - 1] else line
  }

  /** A piece of a joined sequence occurs in the joined string. */
  lemma {:induction false} PartOccurs(parts: seq<string>, sep: string, i: nat)
    requires i < |parts|
    ensures Contains(Join(parts, sep), parts[i])
    decreases |parts|
  {
    var j := Join(parts, sep);
    ContainsAt(j, parts[i]);
    if |parts| == 1 {
      assert OccursAt(j, parts[i], 0);
    } else if i == 0 {
      assert j == parts[0] + (sep + Join(parts[1..], sep));
      assert OccursAt(j, parts[0], 0);
    } else {
      var rest := Join(parts[1..], sep);
      PartOccurs(parts[1..], sep, i - 1);
      ContainsAt(rest, parts[i]);
      var k :| OccursAt(rest, parts[1..][i - 1], k);
      var off := |parts[0]| + |sep|;
      assert j == parts[0] + sep + rest;
      assert j[off + k..off + k + |parts[i]|] == rest[k..k + |parts[i]|];
      assert OccursAt(j, parts[i], off + k);
    }
  }

  /** Whatever cut prints occurs in the line. */
  lemma CutOccursInLine(line: string, fields: int, delimiter: string, separated: bool)
    ensures Contains(line, Cut(line, fields, delimiter, separated))
  {
    var columns := Split(line, delimiter);
    var out := Cut(line, fields, delimiter, separated);
    JoinSplit(line, delimiter);
    if 0 < fields <= |columns| {
      PartOccurs(columns, delimiter, fields - 1);
    } else {
      ContainsAt(line, out);
      if separated {
        assert OccursAt(line, out, 0);
      } else {
        assert line[0..|line|] == line;
        assert OccursAt(line, out, 0);
      }
    }
  }

  /** A line without the (non-empty) delimiter is a single column, so -f 1
      prints it whole even under -s. */
  lemma UndelimitedLineIsFirstField(line: string, delimiter: string, separated: bool)
    requires |delimiter| > 0 && !Contains(line, delimiter)
    ensures Cut(line, 1, delimiter, separated) == line
    ensures forall f :: f != 1 ==> Cut(line, f, delimiter, separated) == (if separated then "" else line)
  {
    SplitWithoutSeparator(line, delimiter);
  }

  /** A field beyond the last column, or a non-positive one, prints the line
      unchanged without -s. */
  lemma MissingFieldPrintsLine(line: string, fields: int, delimiter: string)
    requires fields <= 0 || fields > |Split(line, delimiter)|
    ensures Cut(line, fields, delimiter, false) == line
    ensures Cut(line, fields, delimiter, true) == ""
  {
  }

  /** Two tab-separated columns. */
  lemma SecondTabColumn()
    ensures Cut("a\tb", 2, DefaultDelimiter, false) == "b"
    ensures Cut("a\tb", 3, DefaultDelimiter, true) == ""
  {
    var line := "a\tb";
    assert line[..1] == "a" && line[..1][0] == 'a';
    assert !IsPrefix("\t", line);
    assert line[1..] == "\tb" && line[1..][..1] == "\t";
    assert IsPrefix("\t", line[1..]);
    assert IndexOf(line, "\t") == 1;
    assert line[..1] == "a" && line[1 + 1..] == "b";
    assert "b"[..1] == "b" && "b"[1..] == "";
    assert !IsPrefix("\t", "b") && !IsPrefix("\t", "");
    assert IndexOf("b", "\t") == -1;
    assert SplitOn("b", "\t") == ["b"];
    assert Split("a\tb", "\t") == ["a", "b"];
  }
}
