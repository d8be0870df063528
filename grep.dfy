/** The grep utility: lines selected by a fixed string (or an abstract
    regular expression), optionally case-folded and inverted, printed with
    context lines before and after, each distinct printed string once, or
    only the number of selected lines. */
module Grep {
  import opened Common
  import opened GoStrings

  /** An input line with its number. */
  datatype Line = Line(str: string, num: int)

  /** The command-line flags -A, -B, -C, -c, -i, -v, -F and -n. */
  datatype Flags = Flags(after: int, before: int, context: int, count: bool,
                         ignoreCase: bool, invert: bool, fixed: bool, lineNum: bool)

  /** The strings already printed, shared by all the helpers of one run. */
  class Seen {
    var strs: set<string>

    constructor()
      ensures strs == {}
    {
      strs := {};
    }
  }

  /** How a line is printed: with its number in front under -n. */
  function Render(l: Line, lineNum: bool): string {
    if lineNum then Itoa(l.num) + " " + l.str else l.str
  }

  /** A printed line ends with the line's text; under -n it starts with the
      line number, which reads back, and a space. */
  lemma RenderReadsBack(l: Line, lineNum: bool)
    ensures var r := Render(l, lineNum);
      && |r| >= |l.str| && r[|r| - |l.str|..] == l.str
      && (!lineNum ==> r == l.str)
      && (lineNum ==> |r| >= |l.str| + 2 && r[|r| - |l.str| - 1] == ' ')
      && (lineNum && MinInt64 <= l.num <= MaxInt64 ==> Atoi(r[..|r| - |l.str| - 1]) == Some(l.num))
  {
    if lineNum {
      var num := Itoa(l.num);
      var r := num + " " + l.str;
      assert r[..|r| - |l.str| - 1] == num && r[|r| - |l.str|..] == l.str;
      if MinInt64 <= l.num <= MaxInt64 {
        AtoiItoa(l.num);
      }
    }
  }

  function RenderAll(ls: seq<Line>, lineNum: bool): (r: seq<string>)
    ensures |r| == |ls| && forall k :: 0 <= k < |ls| ==> r[k] == Render(ls[k], lineNum)
  {
    seq(|ls|, k requires 0 <= k < |ls| => Render(ls[k], lineNum))
  }

  function Min(a: int, b: int): int { if a <= b then a else b }
  function Max(a: int, b: int): int { if a >= b then a else b }

  /** The lines addAfter goes through: from the match itself on, `count`
      lines or up to the end. */
  function AfterWindow(input: seq<Line>, idx: int, count: int): (w: seq<Line>)
    requires 0 <= idx <= |input| && count >= 0
    ensures |w| == Min(count, |input| - idx)
    ensures forall k :: 0 <= k < |w| ==> w[k] == input[idx + k]
  {
    if idx + count > |input| then input[idx..] else input[idx..idx + count]
  }

  /** The lines addBefore goes through: the `count` lines before the match,
      or all of them when there are fewer. */
  function BeforeWindow(input: seq<Line>, idx: int, count: int): (w: seq<Line>)
    requires 0 <= idx <= |input| && count >= 0
    ensures |w| == Min(count, idx)
    ensures forall k :: 0 <= k < |w| ==> w[k] == input[idx - |w| + k]
  {
    if idx - count < 0 then input[..idx] else input[idx - count..idx]
  }

  /** The loop the helpers share: each rendered line not yet printed is
      added to the result and to the shared set. */
  method AddLines(window: seq<Line>, seen: Seen, lineNum: bool) returns (res: seq<string>)
    modifies seen
    ensures res == Fresh(RenderAll(window, lineNum), old(seen.strs))
    ensures seen.strs == old(seen.strs) + Elems(RenderAll(window, lineNum))
  {
    ghost var all := RenderAll(window, lineNum);
    res := [];
    var k := 0;
    while k < |window|
      invariant 0 <= k <= |window|
      invariant Fresh(all, old(seen.strs)) == res + Fresh(all[k..], seen.strs)
      invariant seen.strs == old(seen.strs) + Elems(all[..k])
    {
      var s := Render(window[k], lineNum);
      assert all[k..][0] == s && all[k..][1..] == all[k + 1..];
      assert all[..k + 1] == all[..k] + [s];
      assert Elems(all[..k + 1]) == Elems(all[..k]) + {s};
      if s !in seen.strs {
        assert res + ([s] + Fresh(all[k + 1..], seen.strs + {s})) == (res + [s]) + Fresh(all[k + 1..], seen.strs + {s});
        res := res + [s];
        seen.strs := seen.strs + {s};
      }
      k := k + 1;
    }
    assert all[..k] == all;
  }

  /** addAfter. */
  method AddAfter(input: seq<Line>, seen: Seen, idx: int, count: int, lineNum: bool) returns (res: seq<string>)
    requires 0 <= idx <= |input| && count >= 0
    modifies seen
    ensures res == Fresh(RenderAll(AfterWindow(input, idx, count), lineNum), old(seen.strs))
    ensures seen.strs == old(seen.strs) + Elems(RenderAll(AfterWindow(input, idx, count), lineNum))
  {
    if idx + count > |input| {
      res := AddLines(input[idx..], seen, lineNum);
      return;
    }
    res := AddLines(input[idx..idx + count], seen, lineNum);
  }

  /** addBefore. */
  method AddBefore(input: seq<Line>, seen: Seen, idx: int, count: int, lineNum: bool) returns (res: seq<string>)
    requires 0 <= idx <= |input| && count >= 0
    modifies seen
    ensures res == Fresh(RenderAll(BeforeWindow(input, idx, count), lineNum), old(seen.strs))
    ensures seen.strs == old(seen.strs) + Elems(RenderAll(BeforeWindow(input, idx, count), lineNum))
  {
    if idx - count < 0 {
      res := AddLines(input[..idx], seen, lineNum);
      return;
    }
    res := AddLines(input[idx - count..idx], seen, lineNum);
  }

  /** The strings flagHandler offers for the match at `idx`, in order,
      before the shared set filters them: under -C the context lines on
      both sides; otherwise the -B lines, the match, then the -A lines
      (whose window starts at the match itself). */
  function Candidates(input: seq<Line>, idx: int, flags: Flags): seq<string>
    requires 0 <= idx < |input|
  {
    var n := flags.lineNum;
    var hit := [Render(input[idx], n)];
    if flags.context > 0 then
      RenderAll(BeforeWindow(input, idx, flags.context), n) + hit
        + RenderAll(AfterWindow(input, idx, flags.context), n)
    else
      (if flags.before > 0 then RenderAll(BeforeWindow(input, idx, flags.before), n) else [])
        + hit
        + (if flags.after > 0 then RenderAll(AfterWindow(input, idx, flags.after), n) else [])
  }

  /** The match alone, added unless already printed. */
  method AddMatch(input: seq<Line>, seen: Seen, idx: int, lineNum: bool) returns (res: seq<string>)
    requires 0 <= idx < |input|
    modifies seen
    ensures res == Fresh([Render(input[idx], lineNum)], old(seen.strs))
    ensures seen.strs == old(seen.strs) + {Render(input[idx], lineNum)}
  {
    var s := Render(input[idx], lineNum);
    res := [];
    if s !in seen.strs {
      res := [s];
      seen.strs := seen.strs + {s};
    }
  }

  /** Fresh over three consecutive parts, each filtered by what the
      parts before it added. */
  lemma FreshThreeParts<T>(b: seq<T>, m: seq<T>, a: seq<T>, s0: set<T>)
    ensures Fresh(b + m + a, s0)
      == Fresh(b, s0) + Fresh(m, s0 + Elems(b)) + Fresh(a, s0 + Elems(b) + Elems(m))
    ensures s0 + Elems(b + m + a) == s0 + Elems(b) + Elems(m) + Elems(a)
  {
    FreshAppend(b, m, s0);
    FreshAppend(b + m, a, s0);
    assert Elems(b + m) == Elems(b) + Elems(m);
    assert Elems(b + m + a) == Elems(b + m) + Elems(a);
    assert s0 + Elems(b) + Elems(m) == s0 + Elems(b + m);
  }

  /** addContext. */
  method AddContext(input: seq<Line>, seen: Seen, idx: int, flags: Flags) returns (res: seq<string>)
    requires 0 <= idx < |input| && flags.context > 0
    modifies seen
    ensures res == Fresh(Candidates(input, idx, flags), old(seen.strs))
    ensures seen.strs == old(seen.strs) + Elems(Candidates(input, idx, flags))
  {
    var n := flags.lineNum;
    ghost var b := RenderAll(BeforeWindow(input, idx, flags.context), n);
    ghost var m := [Render(input[idx], n)];
    ghost var a := RenderAll(AfterWindow(input, idx, flags.context), n);
    ghost var s0 := seen.strs;
    var r1 := AddBefore(input, seen, idx, flags.context, n);
    var r2 := AddMatch(input, seen, idx, n);
    var r3 := AddAfter(input, seen, idx, flags.context, n);
    res := r1 + r2 + r3;
    assert Elems(m) == {Render(input[idx], n)};
    assert Candidates(input, idx, flags) == b + m + a;
    FreshThreeParts(b, m, a, s0);
  }

  /** flagHandler. */
  method FlagHandler(input: seq<Line>, seen: Seen, idx: int, flags: Flags) returns (result: seq<string>)
    requires 0 <= idx < |input|
    modifies seen
    ensures result == Fresh(Candidates(input, idx, flags), old(seen.strs))
    ensures seen.strs == old(seen.strs) + Elems(Candidates(input, idx, flags))
  {
    if flags.context > 0 {
      result := AddContext(input, seen, idx, flags);
      return;
    }
    var n := flags.lineNum;
    ghost var b := if flags.before > 0 then RenderAll(BeforeWindow(input, idx, flags.before), n) else [];
    ghost var m := [Render(input[idx], n)];
    ghost var a := if flags.after > 0 then RenderAll(AfterWindow(input, idx, flags.after), n) else [];
    ghost var s0 := seen.strs;
    result := [];
    if flags.before > 0 {
      var r := AddBefore(input, seen, idx, flags.before, n);
      result := result + r;
    }
    assert result == Fresh(b, s0) && seen.strs == s0 + Elems(b);
    var r2 := AddMatch(input, seen, idx, n);
    assert Elems(m) == {Render(input[idx], n)};
    result := result + r2;
    var r3: seq<string> := [];
    if flags.after > 0 {
      r3 := AddAfter(input, seen, idx, flags.after, n);
    }
    assert r3 == Fresh(a, s0 + Elems(b) + Elems(m));
    result := result + r3;
    assert Candidates(input, idx, flags) == b + m + a;
    FreshThreeParts(b, m, a, s0);
  }

  // ---------------------------------------------------------------------
  // grep
  // ---------------------------------------------------------------------

  /** Whether a line matches: the line, lower-cased under -i (the pattern is
      not), contains the pattern under -F, or else satisfies the compiled
      regular expression. */
  predicate Matches(l: Line, pattern: string, flags: Flags, re: Option<string -> bool>) {
    var line := if flags.ignoreCase then ToLower(l.str) else l.str;
    if flags.fixed then Contains(line, pattern) else re.Some? && re.value(line)
  }

  /** A line is selected when it matches, or under -v when it does not. */
  predicate Selected(l: Line, pattern: string, flags: Flags, re: Option<string -> bool>) {
    Matches(l, pattern, flags, re) != flags.invert
  }

  /** The candidates of the selected lines among the first `k`, in order. */
  function Collected(input: seq<Line>, k: nat, pattern: string, flags: Flags, re: Option<string -> bool>): seq<string>
    requires k <= |input|
  {
    Flatten(Parts(input, pattern, flags, re)[..k])
  }

  /** What each line contributes, line by line. */
  function Parts(input: seq<Line>, pattern: string, flags: Flags, re: Option<string -> bool>): (ps: seq<seq<string>>)
    ensures |ps| == |input|
    ensures forall i :: 0 <= i < |input| ==> ps[i] == Contribution(input, i, pattern, flags, re)
  {
    seq(|input|, i requires 0 <= i < |input| => Contribution(input, i, pattern, flags, re))
  }

  /** The concatenation of `ps`, in order. */
  function Flatten<T>(ps: seq<seq<T>>): seq<T>
    decreases |ps|
  {
    if |ps| == 0 then [] else Flatten(ps[..|ps| - 1]) + ps[|ps| - 1]
  }

  lemma FlattenSnoc<T>(ps: seq<seq<T>>, k: nat)
    requires k < |ps|
    ensures Flatten(ps[..k + 1]) == Flatten(ps[..k]) + ps[k]
  {
    assert ps[..k + 1][..k] == ps[..k];
  }

  /** Every part's elements are among those of every longer prefix's
      concatenation. */
  lemma {:induction false} FlattenContains<T>(ps: seq<seq<T>>, i: nat, k: nat)
    requires i < k <= |ps|
    ensures Elems(ps[i]) <= Elems(Flatten(ps[..k]))
    decreases k
  {
    FlattenSnoc(ps, k - 1);
    ElemsAppend(Flatten(ps[..k - 1]), ps[k - 1]);
    if i < k - 1 {
      FlattenContains(ps, i, k - 1);
    }
  }

  /** What the line at `idx` adds to the output before de-duplication. */
  function Contribution(input: seq<Line>, idx: nat, pattern: string, flags: Flags, re: Option<string -> bool>): seq<string>
    requires idx < |input|
  {
    if Selected(input[idx], pattern, flags, re) then Candidates(input, idx, flags) else []
  }

  /** The number of selected lines among the first `k`. */
  function CountSelected(input: seq<Line>, k: nat, pattern: string, flags: Flags, re: Option<string -> bool>): nat
    requires k <= |input|
  {
    if k == 0 then 0
    else CountSelected(input, k - 1, pattern, flags, re) + (if Selected(input[k - 1], pattern, flags, re) then 1 else 0)
  }

  /** grep: `re` is the outcome of compiling the pattern (None when it does
      not compile); it is only used without -F. The printed lines are
      returned: the counter alone under -c, otherwise every collected
      string that was not printed before. */
  method Grep(input: seq<Line>, pattern: string, flags: Flags, re: Option<string -> bool>)
    returns (ok: bool, output: seq<string>)
    ensures !flags.fixed && re.None? ==> !ok && output == []
    ensures (flags.fixed || re.Some?) ==>
      ok && output == (if flags.count then [Itoa(CountSelected(input, |input|, pattern, flags, re))]
                       else Fresh(Collected(input, |input|, pattern, flags, re), {}))
  {
    if !flags.fixed && re.None? {
      return false, [];
    }
    var counter := 0;
    var result: seq<string> := [];
    var seen := new Seen();
    var idx := 0;
    while idx < |input|
      invariant 0 <= idx <= |input|
      invariant GrepInv(input, pattern, flags, re, idx, result, seen.strs, counter)
    {
      ghost var strs := seen.strs;
      var selected, part := HandleLine(input, seen, idx, pattern, flags, re);
      var counter' := if selected then counter + 1 else counter;
      GrepStep(input, pattern, flags, re, idx, result, strs, counter, part, seen.strs, counter');
      result := result + part;
      counter := counter';
      idx := idx + 1;
    }
    ok := true;
    if flags.count {
      output := [Itoa(counter)];
    } else {
      output := result;
    }
  }

  /** One iteration of grep's loop: the line, lower-cased under -i, is
      tested against the pattern; a selected line goes to the flag handler. */
  method HandleLine(input: seq<Line>, seen: Seen, idx: nat, pattern: string, flags: Flags, re: Option<string -> bool>)
    returns (selected: bool, part: seq<string>)
    requires idx < |input|
    modifies seen
    ensures selected == Selected(input[idx], pattern, flags, re)
    ensures part == Fresh(Contribution(input, idx, pattern, flags, re), old(seen.strs))
    ensures seen.strs == old(seen.strs) + Elems(Contribution(input, idx, pattern, flags, re))
  {
    var line := input[idx].str;
    if flags.ignoreCase {
      line := ToLower(line);
    }
    var matched := if flags.fixed then Contains(line, pattern) else re.Some? && re.value(line);
    selected := matched != flags.invert;
    if selected {
      part := FlagHandler(input, seen, idx, flags);
    } else {
      part := [];
      assert seen.strs + Elems(part) == seen.strs;
    }
  }

  /** Grep's loop after the first `idx` lines: the output so far, the
      strings printed so far and the counter. */
  ghost predicate GrepInv(input: seq<Line>, pattern: string, flags: Flags, re: Option<string -> bool>,
                          idx: nat, result: seq<string>, strs: set<string>, counter: int) {
    && idx <= |input|
    && result == Fresh(Collected(input, idx, pattern, flags, re), {})
    && strs == Elems(Collected(input, idx, pattern, flags, re))
    && counter == CountSelected(input, idx, pattern, flags, re)
  }

  /** One more line extends the output by its fresh strings, the set of
      printed strings by all of them, and the counter when it is selected. */
  lemma GrepStep(input: seq<Line>, pattern: string, flags: Flags, re: Option<string -> bool>,
                 idx: nat, result: seq<string>, strs: set<string>, counter: int,
                 part: seq<string>, strs': set<string>, counter': int)
    requires idx < |input| && GrepInv(input, pattern, flags, re, idx, result, strs, counter)
    requires part == Fresh(Contribution(input, idx, pattern, flags, re), strs)
    requires strs' == strs + Elems(Contribution(input, idx, pattern, flags, re))
    requires counter' == if Selected(input[idx], pattern, flags, re) then counter + 1 else counter
    ensures GrepInv(input, pattern, flags, re, idx + 1, result + part, strs', counter')
  {
    var before := Collected(input, idx, pattern, flags, re);
    var cand := Contribution(input, idx, pattern, flags, re);
    FlattenSnoc(Parts(input, pattern, flags, re), idx);
    FreshAppend(before, cand, {});
    assert {} + Elems(before) == Elems(before);
    assert Elems(before + cand) == Elems(before) + Elems(cand);
  }

  // ---------------------------------------------------------------------
  // Properties
  // ---------------------------------------------------------------------

  /** The counter is the number of selected lines. */
  lemma {:induction false} CountIsSelectedLines(input: seq<Line>, k: nat, pattern: string, flags: Flags, re: Option<string -> bool>)
    requires k <= |input|
    ensures CountSelected(input, k, pattern, flags, re)
      == |set i | 0 <= i < k && Selected(input[i], pattern, flags, re)|
    decreases k
  {
    if k == 0 {
      assert SelectedIndices(input, 0, pattern, flags, re) == {};
    } else {
      CountIsSelectedLines(input, k - 1, pattern, flags, re);
      SelectedIndicesStep(input, k, pattern, flags, re);
    }
  }

  /** The indices of the selected lines among the first `k`. */
  ghost function SelectedIndices(input: seq<Line>, k: nat, pattern: string, flags: Flags, re: Option<string -> bool>): set<int>
    requires k <= |input|
  {
    set i | 0 <= i < k && Selected(input[i], pattern, flags, re)
  }

  lemma SelectedIndicesStep(input: seq<Line>, k: nat, pattern: string, flags: Flags, re: Option<string -> bool>)
    requires 0 < k <= |input|
    ensures SelectedIndices(input, k, pattern, flags, re)
      == SelectedIndices(input, k - 1, pattern, flags, re)
         + (if Selected(input[k - 1], pattern, flags, re) then {k - 1} else {})
    ensures k - 1 !in SelectedIndices(input, k - 1, pattern, flags, re)
  {
  }

  /** Without -c the output has no repeated string, consists of exactly the
      strings collected, and shows the rendering of every selected line. */
  lemma OutputProperties(input: seq<Line>, pattern: string, flags: Flags, re: Option<string -> bool>)
    ensures var all := Collected(input, |input|, pattern, flags, re);
      var out := Fresh(all, {});
      && NoDup(out)
      && Elems(out) == Elems(all)
      && forall i :: 0 <= i < |input| && Selected(input[i], pattern, flags, re) ==>
           Render(input[i], flags.lineNum) in out
  {
    var all := Collected(input, |input|, pattern, flags, re);
    FreshProperties(all, {});
    forall i | 0 <= i < |input| && Selected(input[i], pattern, flags, re)
      ensures Render(input[i], flags.lineNum) in Elems(all)
    {
      MatchCollected(input, i, |input|, pattern, flags, re);
    }
  }

  /** The match itself is always among the candidates of its line. */
  lemma MatchInCandidates(input: seq<Line>, idx: int, flags: Flags)
    requires 0 <= idx < |input|
    ensures Render(input[idx], flags.lineNum) in Candidates(input, idx, flags)
  {
    var n := flags.lineNum;
    var x := Render(input[idx], n);
    var b := if flags.context > 0 then RenderAll(BeforeWindow(input, idx, flags.context), n)
             else if flags.before > 0 then RenderAll(BeforeWindow(input, idx, flags.before), n)
             else [];
    var a := if flags.context > 0 then RenderAll(AfterWindow(input, idx, flags.context), n)
             else if flags.after > 0 then RenderAll(AfterWindow(input, idx, flags.after), n)
             else [];
    assert Candidates(input, idx, flags) == b + [x] + a;
    assert (b + [x] + a)[|b|] == x;
  }

  /** The strings a line contributes are among the strings collected from
      every longer prefix of the input. */
  lemma ContributionCollected(input: seq<Line>, i: nat, k: nat, pattern: string, flags: Flags, re: Option<string -> bool>)
    requires i < k <= |input|
    ensures Elems(Contribution(input, i, pattern, flags, re)) <= Elems(Collected(input, k, pattern, flags, re))
  {
    FlattenContains(Parts(input, pattern, flags, re), i, k);
  }

  lemma ElemsAppend<T>(a: seq<T>, b: seq<T>)
    ensures Elems(a + b) == Elems(a) + Elems(b)
  {
  }

  /** The rendering of a selected line is among the strings collected. */
  lemma MatchCollected(input: seq<Line>, i: nat, k: nat, pattern: string, flags: Flags, re: Option<string -> bool>)
    requires i < k <= |input| && Selected(input[i], pattern, flags, re)
    ensures Render(input[i], flags.lineNum) in Collected(input, k, pattern, flags, re)
  {
    MatchInCandidates(input, i, flags);
    assert Render(input[i], flags.lineNum) in Elems(Contribution(input, i, pattern, flags, re));
    ContributionCollected(input, i, k, pattern, flags, re);
  }

  /** Under -i only the line is lower-cased: a fixed pattern holding an
      ASCII capital letter never matches. */
  lemma IgnoreCaseCapitalPattern(l: Line, pattern: string, flags: Flags, re: Option<string -> bool>, k: nat)
    requires flags.ignoreCase && flags.fixed && k < |pattern| && 'A' <= pattern[k] <= 'Z'
    ensures !Matches(l, pattern, flags, re)
  {
    var line := ToLower(l.str);
    LowerHasNoCapital(l.str);
    if Contains(line, pattern) {
      ContainsRune(line, pattern, k);
    }
  }

  lemma LowerHasNoCapital(s: string)
    ensures forall c :: c in ToLower(s) ==> !('A' <= c <= 'Z')
  {
  }

  /** -C n offers what -A n -B n offers. */
  lemma ContextIsBeforeAndAfter(input: seq<Line>, idx: int, flags: Flags)
    requires 0 <= idx < |input| && flags.context > 0
    ensures Candidates(input, idx, flags)
      == Candidates(input, idx, flags.(context := 0, before := flags.context, after := flags.context))
  {
  }

  /** Because the -A window starts at the match, -A n shows only n - 1 lines
      after the match: the match is offered twice and the second copy is
      always dropped. */
  lemma AfterShowsOneLineLess(input: seq<Line>, idx: int, flags: Flags, seen: set<string>)
    requires 0 <= idx < |input| && flags.context <= 0 && flags.before <= 0 && flags.after > 0
    ensures Fresh(Candidates(input, idx, flags), seen)
      == Fresh(RenderAll(input[idx..Min(idx + flags.after, |input|)], flags.lineNum), seen)
    ensures Fresh(Candidates(input, idx, flags), seen)
      == Fresh([Render(input[idx], flags.lineNum)] + RenderAll(input[idx + 1..Min(idx + flags.after, |input|)], flags.lineNum), seen)
  {
    var n := flags.lineNum;
    AfterOnlyCandidates(input, idx, flags);
    AfterWindowHead(input, idx, flags.after, n);
    FreshRepeatedHead(Render(input[idx], n), RenderAll(input[idx + 1..Min(idx + flags.after, |input|)], n), seen);
  }

  /** With only -A the candidates are the match followed by the -A window. */
  lemma AfterOnlyCandidates(input: seq<Line>, idx: int, flags: Flags)
    requires 0 <= idx < |input| && flags.context <= 0 && flags.before <= 0 && flags.after > 0
    ensures Candidates(input, idx, flags)
      == [Render(input[idx], flags.lineNum)] + RenderAll(AfterWindow(input, idx, flags.after), flags.lineNum)
  {
    var hit := [Render(input[idx], flags.lineNum)];
    assert [] + hit == hit;
  }

  /** The rendered -A window is the match followed by the lines after it. */
  lemma AfterWindowHead(input: seq<Line>, idx: int, count: int, n: bool)
    requires 0 <= idx < |input| && count > 0
    ensures var w := RenderAll(AfterWindow(input, idx, count), n);
      && w == RenderAll(input[idx..Min(idx + count, |input|)], n)
      && w == [Render(input[idx], n)] + RenderAll(input[idx + 1..Min(idx + count, |input|)], n)
  {
    var m := Min(idx + count, |input|);
    assert AfterWindow(input, idx, count) == input[idx..m];
    RenderAllCons(input[idx..m], n);
    assert input[idx..m][1..] == input[idx + 1..m];
  }

  lemma RenderAllCons(ls: seq<Line>, n: bool)
    requires |ls| > 0
    ensures RenderAll(ls, n) == [Render(ls[0], n)] + RenderAll(ls[1..], n)
  {
    var r := RenderAll(ls, n);
    var t := [Render(ls[0], n)] + RenderAll(ls[1..], n);
    assert |r| == |t|;
    forall k | 0 <= k < |r| ensures r[k] == t[k] {
      if k > 0 {
        assert t[k] == RenderAll(ls[1..], n)[k - 1];
      }
    }
  }

  /** A head repeated right after itself is dropped the second time. */
  lemma FreshRepeatedHead<T>(x: T, rest: seq<T>, seen: set<T>)
    ensures Fresh([x] + ([x] + rest), seen) == Fresh([x] + rest, seen)
  {
    assert ([x] + ([x] + rest))[1..] == [x] + rest;
    assert ([x] + rest)[1..] == rest;
    if x !in seen {
      assert Fresh([x] + ([x] + rest), seen) == [x] + Fresh([x] + rest, seen + {x});
      assert Fresh([x] + rest, seen + {x}) == Fresh(rest, seen + {x});
    }
  }
}
