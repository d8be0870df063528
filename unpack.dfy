/** The run-length unpacker: a rune followed by a decimal digit n is
    written n times, a backslash makes the next rune literal, and three
    shapes of input are errors. */
module Unpack {
  import opened Common
  import opened GoStrings

  datatype UnpackError = InvalidString | NumberInZeroPosition | NumberIsZero

  /** The loop's variables between two runes: what has been written so far,
      the previous rune, whether a backslash is pending, and whether the
      previous rune was written because of a backslash. */
  datatype State = State(out: string, prev: char, escape: bool, prevIsEscape: bool)

  datatype Progress = Running(st: State) | Failed(error: UnpackError)

  /** The zero rune stands for the uninitialised `previousRune`. */
  const Start := State("", '\0', false, false)

  /** What one rune does to the state; `idx` is its position. */
  function Step(st: State, idx: nat, c: char): Progress {
    if c == '\\' then
      if st.escape then Running(st.(out := st.out + [c], prev := c, escape := false))
      else Running(st.(escape := true))
    else if st.escape then
      Running(State(st.out + [c], c, false, true))
    else
      match Atoi([c])
      case None => Running(st.(out := st.out + [c], prev := c))
      case Some(num) =>
        if Atoi([st.prev]).Some? && !st.prevIsEscape then Failed(InvalidString)
        else if idx == 0 then Failed(NumberInZeroPosition)
        else if num == 0 then Failed(NumberIsZero)
        else Running(State(st.out + Repeat(st.prev, num - 1), c, false, false))
  }

  /** The loop run over the runes of `s`, the first of them at position `idx`. */
  function Run(p: Progress, s: string, idx: nat): Progress
    decreases |s|
  {
    if |s| == 0 || p.Failed? then p else Run(Step(p.st, idx, s[0]), s[1..], idx + 1)
  }

  /** What unpack returns: the written text and no error, or "" and the error. */
  function Spec(s: string): (r: (string, Option<UnpackError>))
    ensures r.1.Some? ==> r.0 == ""
  {
    match Run(Running(Start), s, 0)
    case Running(st) => (st.out, None)
    case Failed(e) => ("", Some(e))
  }

  /** writeBlock: the repeated rune is written `number - 1` more times (it
      was already written once) and the counter is reset. */
  method WriteBlock(out: string, number: int, c: char) returns (out': string, number': int)
    ensures number != 0 ==> out' == out + Repeat(c, if number > 0 then number - 1 else 0) && number' == 0
    ensures number == 0 ==> out' == out && number' == 0
  {
    out', number' := out, number;
    if number' != 0 {
      var i := 0;
      while i < number' - 1
        invariant 0 <= i <= if number' > 0 then number' - 1 else 0
        invariant out' == out + Repeat(c, i)
      {
        assert Repeat(c, i) + [c] == Repeat(c, i + 1);
        out' := out' + [c];
        i := i + 1;
      }
      number' := 0;
    }
  }

  /** unpack, as the loop over the runes of `str`. */
  method Unpack(str: string) returns (result: string, err: Option<UnpackError>)
    ensures (result, err) == Spec(str)
    ensures err.Some? ==> result == ""
  {
    var out := "";
    var previousRune := '\0';
    var num := 0;
    var escape := false;
    var previousIsEscape := false;
    var idx := 0;
    while idx < |str|
      invariant 0 <= idx <= |str|
      invariant Run(Running(Start), str, 0)
        == Run(Running(State(out, previousRune, escape, previousIsEscape)), str[idx..], idx)
    {
      var current := str[idx];
      assert str[idx..][1..] == str[idx + 1..];
      if current == '\\' {
        if escape {
          out := out + [current];
          previousRune := current;
          escape := false;
        } else {
          escape := true;
        }
        idx := idx + 1;
        continue;
      }
      if escape {
        escape := false;
        out := out + [current];
        previousRune := current;
        previousIsEscape := true;
        idx := idx + 1;
        continue;
      }
      var parsed := Atoi([current]);
      if parsed.None? {
        out := out + [current];
        previousRune := current;
        idx := idx + 1;
        continue;
      }
      num := parsed.value;
      if Atoi([previousRune]).Some? && !previousIsEscape {
        return "", Some(InvalidString);
      } else if idx == 0 {
        return "", Some(NumberInZeroPosition);
      } else if num == 0 {
        return "", Some(NumberIsZero);
      }
      out, num := WriteBlock(out, num, previousRune);
      previousRune := current;
      if previousRune != '\\' {
        previousIsEscape := false;
      }
      idx := idx + 1;
    }
    result, err := out, None;
  }

  // ---------------------------------------------------------------------
  // A reference decoder: blocks of (rune, count) and their packed form.
  // ---------------------------------------------------------------------

  /** A rune to be written `count` times; counts are single digits. */
  datatype Block = Block(rune: char, count: nat)

  predicate ValidBlocks(bs: seq<Block>) {
    forall i :: 0 <= i < |bs| ==> 1 <= bs[i].count <= 9
  }

  /** The packed form of one block: the rune (behind a backslash when it is
      a digit or a backslash), then the count unless it is 1. */
  function PackBlock(b: Block): string
    requires 1 <= b.count <= 9
  {
    (if IsDigit(b.rune) || b.rune == '\\' then ['\\', b.rune] else [b.rune])
      + (if b.count == 1 then [] else [DigitChar(b.count)])
  }

  function Pack(bs: seq<Block>): string
    requires ValidBlocks(bs)
  {
    if |bs| == 0 then "" else PackBlock(bs[0]) + Pack(bs[1..])
  }

  function Expand(bs: seq<Block>): string {
    if |bs| == 0 then "" else Repeat(bs[0].rune, bs[0].count) + Expand(bs[1..])
  }

  lemma {:induction false} RunAppend(p: Progress, a: string, b: string, idx: nat)
    ensures Run(p, a + b, idx) == Run(Run(p, a, idx), b, idx + |a|)
    decreases |a|
  {
    if |a| > 0 && p.Running? {
      assert (a + b)[0] == a[0] && (a + b)[1..] == a[1..] + b;
      RunAppend(Step(p.st, idx, a[0]), a[1..], b, idx + 1);
    } else if |a| == 0 {
      assert a + b == b;
    } else {
      RunFailed(p, b, idx + |a|);
      RunFailed(p, a + b, idx);
    }
  }

  lemma RunFailed(p: Progress, s: string, idx: nat)
    requires p.Failed?
    ensures Run(p, s, idx) == p
  {
  }

  /** One packed block, unpacked from a state with no pending backslash,
      writes the block's rune `count` times. */
  lemma PackBlockRun(st: State, idx: nat, b: Block)
    requires !st.escape && 1 <= b.count <= 9
    ensures Run(Running(st), PackBlock(b), idx).Running?
    ensures Run(Running(st), PackBlock(b), idx).st.out == st.out + Repeat(b.rune, b.count)
    ensures !Run(Running(st), PackBlock(b), idx).st.escape
  {
    var c := b.rune;
    var lead: string := if IsDigit(c) || c == '\\' then ['\\', c] else [c];
    var tail: string := if b.count == 1 then [] else [DigitChar(b.count)];
    var mid := Run(Running(st), lead, idx);
    assert Run(Running(st), PackBlock(b), idx) == Run(mid, tail, idx + |lead|) by {
      assert PackBlock(b) == lead + tail;
      RunAppend(Running(st), lead, tail, idx);
    }
    LeadRun(st, idx, c);
    if b.count == 1 {
      assert Run(mid, tail, idx + |lead|) == mid;
      assert Repeat(c, 1) == [c];
    } else {
      CountRun(mid.st, idx + |lead|, b.count);
      assert mid.st.out + Repeat(c, b.count - 1) == st.out + Repeat(c, b.count) by {
        assert [c] + Repeat(c, b.count - 1) == Repeat(c, b.count);
        AppendAssoc(st.out, [c], Repeat(c, b.count - 1));
      }
    }
  }

  /** The rune of a block, escaped when it is a digit or a backslash, is
      written once and left as the previous rune, escaped if it is a digit. */
  lemma LeadRun(st: State, idx: nat, c: char)
    requires !st.escape
    ensures var mid := Run(Running(st), if IsDigit(c) || c == '\\' then ['\\', c] else [c], idx);
      && mid.Running? && mid.st.out == st.out + [c] && mid.st.prev == c && !mid.st.escape
      && (IsDigit(c) ==> mid.st.prevIsEscape)
  {
    AtoiRune(c);
    if IsDigit(c) || c == '\\' {
      var lead := ['\\', c];
      assert lead[0] == '\\' && lead[1..] == [c] && [c][0] == c && [c][1..] == [];
      var escaped := Step(st, idx, '\\');
      assert escaped == Running(st.(escape := true));
      assert Run(Running(st), lead, idx) == Run(escaped, [c], idx + 1);
      assert Run(escaped, [c], idx + 1) == Run(Step(escaped.st, idx + 1, c), [], idx + 2);
    } else {
      assert [c][0] == c && [c][1..] == [];
      assert Run(Running(st), [c], idx) == Run(Step(st, idx, c), [], idx + 1);
    }
  }

  /** A count digit after its rune writes the rune `n - 1` more times. */
  lemma CountRun(st: State, idx: nat, n: nat)
    requires 2 <= n <= 9 && !st.escape && idx > 0
    requires IsDigit(st.prev) ==> st.prevIsEscape
    ensures var after := Run(Running(st), [DigitChar(n)], idx);
      after.Running? && after.st.out == st.out + Repeat(st.prev, n - 1) && !after.st.escape
  {
    var d := DigitChar(n);
    AtoiRune(d);
    AtoiRune(st.prev);
    assert [d][0] == d && [d][1..] == [];
    assert Run(Running(st), [d], idx) == Run(Step(st, idx, d), [], idx + 1);
  }

  lemma {:induction false} PackRun(st: State, idx: nat, bs: seq<Block>)
    requires !st.escape && ValidBlocks(bs)
    ensures Run(Running(st), Pack(bs), idx).Running?
    ensures Run(Running(st), Pack(bs), idx).st.out == st.out + Expand(bs)
    ensures !Run(Running(st), Pack(bs), idx).st.escape
    decreases |bs|
  {
    if |bs| == 0 {
      assert Pack(bs) == "";
    } else {
      var first := PackBlock(bs[0]);
      var rep := Repeat(bs[0].rune, bs[0].count);
      assert ValidBlocks(bs[1..]);
      var rest := Pack(bs[1..]);
      var mid := Run(Running(st), first, idx);
      assert Run(Running(st), Pack(bs), idx) == Run(mid, rest, idx + |first|) by {
        RunAppend(Running(st), first, rest, idx);
      }
      assert mid == Running(mid.st) && mid.st.out == st.out + rep && !mid.st.escape by {
        PackBlockRun(st, idx, bs[0]);
      }
      var fin := Run(Running(st), Pack(bs), idx);
      assert fin.Running? && fin.st.out == mid.st.out + Expand(bs[1..]) && !fin.st.escape by {
        PackRun(mid.st, idx + |first|, bs[1..]);
      }
      assert Expand(bs) == rep + Expand(bs[1..]);
      AppendAssoc(st.out, rep, Expand(bs[1..]));
    }
  }

  /** Round trip: unpacking the packed form of any blocks gives their expansion. */
  lemma UnpackPack(bs: seq<Block>)
    requires ValidBlocks(bs)
    ensures Spec(Pack(bs)) == (Expand(bs), None)
  {
    PackRun(Start, 0, bs);
    assert Start.out + Expand(bs) == Expand(bs);
  }

  // ---------------------------------------------------------------------
  // The behaviour the tests pin down
  // ---------------------------------------------------------------------

  predicate Plain(s: string) {
    forall i :: 0 <= i < |s| ==> !IsDigit(s[i]) && s[i] != '\\'
  }

  lemma {:induction false} PlainRun(st: State, s: string, idx: nat)
    requires !st.escape && Plain(s)
    ensures Run(Running(st), s, idx).Running?
    ensures Run(Running(st), s, idx).st.out == st.out + s
    ensures !Run(Running(st), s, idx).st.escape
    decreases |s|
  {
    if |s| > 0 {
      AtoiRune(s[0]);
      var next := Step(st, idx, s[0]);
      assert next == Running(st.(out := st.out + [s[0]], prev := s[0]));
      assert Plain(s[1..]);
      PlainRun(next.st, s[1..], idx + 1);
      assert st.out + [s[0]] + s[1..] == st.out + s;
    }
  }

  /** A string without digits and backslashes comes back unchanged; the
      empty string gives the empty string. */
  lemma PlainUnchanged(s: string)
    requires Plain(s)
    ensures Spec(s) == (s, None)
  {
    PlainRun(Start, s, 0);
    assert Start.out + s == s;
  }

  /** A digit first is an error. */
  lemma LeadingDigit(s: string)
    requires |s| > 0 && IsDigit(s[0])
    ensures Spec(s) == ("", Some(NumberInZeroPosition))
  {
    AtoiRune(s[0]);
    AtoiRune('\0');
    assert Run(Running(Start), s, 0) == Run(Step(Start, 0, s[0]), s[1..], 1);
  }

  /** The rune at position `i` is read unescaped: the loop over the runes
      before it either failed already or does not have a pending backslash. */
  predicate Unescaped(s: string, i: nat)
    requires i <= |s|
  {
    var p := Run(Running(Start), s[..i], 0);
    p.Running? ==> !p.st.escape
  }

  /** Without backslashes the loop never marks a rune as escaped. */
  lemma {:induction false} NoBackslashRun(st: State, s: string, idx: nat)
    requires !st.escape
    requires forall i :: 0 <= i < |s| ==> s[i] != '\\'
    ensures var p := Run(Running(st), s, idx);
      p.Running? ==> !p.st.escape
    decreases |s|
  {
    if |s| > 0 {
      var next := Step(st, idx, s[0]);
      if next.Running? {
        NoBackslashRun(next.st, s[1..], idx + 1);
      } else {
        RunFailed(next, s[1..], idx + 1);
      }
    }
  }

  /** Every rune of a string is unescaped as long as no backslash precedes it. */
  lemma NoBackslashUnescaped(s: string, i: nat)
    requires i <= |s| && forall k :: 0 <= k < i ==> s[k] != '\\'
    ensures Unescaped(s, i)
  {
    NoBackslashRun(Start, s[..i], 0);
  }

  /** The run over `s` is the run over its first `i` runes followed by the
      run over the rest. */
  lemma RunSplit(p: Progress, s: string, i: nat, idx: nat)
    requires i <= |s|
    ensures Run(p, s, idx) == Run(Run(p, s[..i], idx), s[i..], idx + i)
  {
    var a, b := s[..i], s[i..];
    assert s == a + b && |a| == i;
    RunAppend(p, a, b, idx);
  }

  /** Two adjacent digits, the first of them unescaped, are an error: the
      second one follows a count. */
  lemma AdjacentDigits(s: string, i: nat)
    requires i + 1 < |s| && IsDigit(s[i]) && IsDigit(s[i + 1]) && Unescaped(s, i)
    ensures Spec(s).1.Some? && Spec(s).0 == ""
  {
    var rest := s[i..];
    RunSplit(Running(Start), s, i, 0);
    var mid := Run(Running(Start), s[..i], 0);
    if mid.Running? {
      AtoiRune(s[i]);
      AtoiRune(s[i + 1]);
      assert rest[0] == s[i] && rest[1..][0] == s[i + 1] && rest[1..][1..] == rest[2..];
      var first := Step(mid.st, i, s[i]);
      assert Run(mid, rest, i) == Run(first, rest[1..], i + 1);
      if first.Running? {
        assert first.st.prev == s[i] && !first.st.escape && !first.st.prevIsEscape;
        var second := Step(first.st, i + 1, s[i + 1]);
        assert second == Failed(InvalidString);
        assert Run(first, rest[1..], i + 1) == Run(second, rest[2..], i + 2);
        RunFailed(second, rest[2..], i + 2);
      } else {
        RunFailed(first, rest[1..], i + 1);
      }
    } else {
      RunFailed(mid, rest, i);
    }
  }

  /** An unescaped zero is an error: a count of zero, a count after a
      count, or a digit in the first position. */
  lemma ZeroCount(s: string, i: nat)
    requires i < |s| && s[i] == '0' && Unescaped(s, i)
    ensures Spec(s).1.Some? && Spec(s).0 == ""
  {
    var rest := s[i..];
    RunSplit(Running(Start), s, i, 0);
    var mid := Run(Running(Start), s[..i], 0);
    if mid.Running? {
      AtoiRune('0');
      assert rest[0] == '0';
      var next := Step(mid.st, i, '0');
      assert next.Failed?;
      assert Run(mid, rest, i) == Run(next, rest[1..], i + 1);
      RunFailed(next, rest[1..], i + 1);
    } else {
      RunFailed(mid, rest, i);
    }
  }

  /** Escapes do not hide the errors: a count after an escaped backslash
      followed by another digit, and a zero after an escaped backslash or
      after an escaped digit. */
  lemma EscapedErrors()
    ensures Spec("\\\\45") == ("", Some(InvalidString))
    ensures Spec("\\\\0") == ("", Some(NumberIsZero))
    ensures Spec("a\\40") == ("", Some(NumberIsZero))
  {
    AtoiRune('4');
    AtoiRune('5');
    AtoiRune('0');
    AtoiRune('\\');
    AtoiRune('a');
  }

  /** The cases of the unit tests. */
  lemma TestPlain()
    ensures Spec("") == ("", None)
    ensures Spec("abcd") == ("abcd", None)
  {
    PlainUnchanged("");
    PlainUnchanged("abcd");
  }

  lemma TestCounts()
    ensures Spec("a4bc2d5e") == ("aaaabccddddde", None)
  {
    var bs := [Block('a', 4), Block('b', 1), Block('c', 2), Block('d', 5), Block('e', 1)];
    assert Pack(bs) == "a4bc2d5e";
    assert Expand(bs) == "aaaabccddddde";
    UnpackPack(bs);
  }

  lemma TestTrailingCount()
    ensures Spec("a4c2") == ("aaaacc", None)
  {
    var bs := [Block('a', 4), Block('c', 2)];
    assert Pack(bs) == "a4c2";
    assert Expand(bs) == "aaaacc";
    UnpackPack(bs);
  }

  lemma TestErrors()
    ensures Spec("4abcd") == ("", Some(NumberInZeroPosition))
    ensures Spec("a45").1.Some? && Spec("a45").0 == ""
    ensures Spec("aa2c0").1.Some? && Spec("aa2c0").0 == ""
  {
    LeadingDigit("4abcd");
    NoBackslashUnescaped("a45", 1);
    AdjacentDigits("a45", 1);
    NoBackslashUnescaped("aa2c0", 4);
    ZeroCount("aa2c0", 4);
  }

  /** The invalid string of the exercise's own examples. */
  lemma DigitsOnly()
    ensures Spec("45") == ("", Some(NumberInZeroPosition))
  {
    LeadingDigit("45");
  }

  lemma TestEscapedDigits()
    ensures Spec("abc\\3\\2") == ("abc32", None)
  {
    var bs := [Block('a', 1), Block('b', 1), Block('c', 1), Block('3', 1), Block('2', 1)];
    assert Pack(bs) == "abc\\3\\2";
    assert Expand(bs) == "abc32";
    UnpackPack(bs);
  }

  lemma TestEscapedDigitCount()
    ensures Spec("qwe\\45") == ("qwe44444", None)
  {
    var bs := [Block('q', 1), Block('w', 1), Block('e', 1), Block('4', 5)];
    assert Pack(bs) == "qwe\\45";
    assert Expand(bs) == "qwe44444";
    UnpackPack(bs);
  }

  lemma TestEscapedBackslash()
    ensures Spec("qwe\\\\5") == ("qwe\\\\\\\\\\", None)
  {
    var bs := [Block('q', 1), Block('w', 1), Block('e', 1), Block('\\', 5)];
    assert Pack(bs) == "qwe\\\\5";
    assert Expand(bs) == "qwe\\\\\\\\\\";
    UnpackPack(bs);
  }
}
