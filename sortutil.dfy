/** The sort utility: lines kept with their words, an optional filter
    that drops lines whose text was seen before, sorting by the text and
    reversal. Only the default order (no column, no numeric flag) is
    modelled. */
module SortUtil {
  import opened Common

  /** One input line: its text and its blank-separated words. */
  datatype Line = Line(str: string, words: seq<string>)

  datatype Parameters = Parameters(columnNumber: int, isNumericSort: bool, isReverse: bool, isOnlyUnique: bool)

  function Str(l: Line): string { l.str }

  // ---------------------------------------------------------------------
  // unique
  // ---------------------------------------------------------------------

  /** The lines whose text is neither in `seen` nor the text of an earlier line. */
  function UniqueFrom(s: seq<Line>, seen: set<string>): seq<Line>
    decreases |s|
  {
    if |s| == 0 then []
    else if s[0].str in seen then UniqueFrom(s[1..], seen)
    else [s[0]] + UniqueFrom(s[1..], seen + {s[0].str})
  }

  /** `a` is `b` with some elements left out. */
  predicate IsSubseq<T(==)>(a: seq<T>, b: seq<T>)
    decreases |b|
  {
    |a| == 0 || (|b| > 0 && if a[0] == b[0] then IsSubseq(a[1..], b[1..]) else IsSubseq(a, b[1..]))
  }

  /** The texts of a sequence of lines. */
  function Strs(s: seq<Line>): set<string> {
    set x | x in s :: x.str
  }

  /** unique: the loop over the lines with the set of texts kept so far. */
  method Unique(lines: seq<Line>) returns (res: seq<Line>)
    ensures res == UniqueFrom(lines, {})
  {
    res := [];
    var keys: set<string> := {};
    var i := 0;
    while i < |lines|
      invariant 0 <= i <= |lines|
      invariant UniqueFrom(lines, {}) == res + UniqueFrom(lines[i..], keys)
    {
      var l := lines[i];
      UniqueFromStep(lines, i, keys);
      if l.str !in keys {
        AppendAssoc(res, [l], UniqueFrom(lines[i + 1..], keys + {l.str}));
        keys := keys + {l.str};
        res := res + [l];
      }
      i := i + 1;
    }
  }

  lemma UniqueFromStep(s: seq<Line>, i: nat, seen: set<string>)
    requires i < |s|
    ensures UniqueFrom(s[i..], seen) ==
      if s[i].str in seen then UniqueFrom(s[i + 1..], seen)
      else [s[i]] + UniqueFrom(s[i + 1..], seen + {s[i].str})
  {
    assert s[i..][0] == s[i] && s[i..][1..] == s[i + 1..];
  }

  /** What unique keeps: lines of the input in their order, no two with the
      same text and none with a text in `seen`, and for every input line
      whose text is not in `seen` a line with that text. */
  lemma {:induction false} UniqueFromProperties(s: seq<Line>, seen: set<string>)
    ensures var r := UniqueFrom(s, seen);
      && IsSubseq(r, s)
      && DistinctKeys(r, Str)
      && (forall x :: x in r ==> x.str !in seen)
      && (forall i :: 0 <= i < |s| ==> s[i].str in seen || s[i].str in Strs(r))
    decreases |s|
  {
    if |s| > 0 {
      var t := s[1..];
      if s[0].str in seen {
        UniqueFromProperties(t, seen);
        SubseqSkip(UniqueFrom(t, seen), s);
      } else {
        var seen' := seen + {s[0].str};
        UniqueFromProperties(t, seen');
        var rt := UniqueFrom(t, seen');
        var r := [s[0]] + rt;
        assert r[1..] == rt;
        forall i, j | 0 <= i < j < |r| ensures Str(r[i]) != Str(r[j]) {
          assert r[j] in rt;
          if i > 0 {
            assert r[i] == rt[i - 1] && r[j] == rt[j - 1];
          }
        }
        forall i | 0 <= i < |s| ensures s[i].str in seen || s[i].str in Strs(r) {
          if i == 0 {
            assert r[0] in r;
          } else {
            assert s[i] == t[i - 1];
            if s[i].str !in seen' {
              var x :| x in rt && x.str == s[i].str;
              assert x in r;
            } else if s[i].str == s[0].str {
              assert r[0] in r;
            }
          }
        }
      }
    }
  }

  /** Dropping the head of the longer sequence keeps a subsequence. */
  lemma {:induction false} SubseqSkip<T>(a: seq<T>, b: seq<T>)
    requires |b| > 0 && IsSubseq(a, b[1..])
    ensures IsSubseq(a, b)
    decreases |b|, 0
  {
    if |a| > 0 && a[0] == b[0] {
      SubseqTail(a, b[1..]);
    }
  }

  /** A subsequence stays one when its head is dropped. */
  lemma {:induction false} SubseqTail<T>(a: seq<T>, b: seq<T>)
    requires |a| > 0 && IsSubseq(a, b)
    ensures IsSubseq(a[1..], b)
    decreases |b|, 1
  {
    if |a[1..]| > 0 {
      if a[0] == b[0] {
        SubseqTail(a[1..], b[1..]);
        SubseqSkip(a[1..], b);
      } else {
        SubseqTail(a, b[1..]);
        SubseqSkip(a[1..], b);
      }
    }
  }

  /** unique keeps the first line with each text: a line whose text occurs
      on no earlier line is in the result. */
  lemma {:induction false} UniqueKeepsFirst(s: seq<Line>, seen: set<string>, i: nat)
    requires i < |s| && s[i].str !in seen
    requires forall j :: 0 <= j < i ==> s[j].str != s[i].str
    ensures s[i] in UniqueFrom(s, seen)
    decreases i
  {
    if i > 0 {
      var seen' := if s[0].str in seen then seen else seen + {s[0].str};
      assert s[1..][i - 1] == s[i];
      UniqueKeepsFirst(s[1..], seen', i - 1);
    }
  }

  /** A sequence with distinct texts, none in `seen`, passes through unchanged. */
  lemma {:induction false} UniqueFromIdentity(s: seq<Line>, seen: set<string>)
    requires DistinctKeys(s, Str) && forall x :: x in s ==> x.str !in seen
    ensures UniqueFrom(s, seen) == s
    decreases |s|
  {
    if |s| > 0 {
      var t := s[1..];
      forall x | x in t ensures x.str !in seen + {s[0].str} {
        var k :| 0 <= k < |t| && t[k] == x;
        assert s[k + 1] == x && Str(s[0]) != Str(s[k + 1]);
      }
      assert DistinctKeys(t, Str);
      UniqueFromIdentity(t, seen + {s[0].str});
    }
  }

  /** unique is idempotent. */
  lemma UniqueIdempotent(s: seq<Line>)
    ensures UniqueFrom(UniqueFrom(s, {}), {}) == UniqueFrom(s, {})
  {
    UniqueFromProperties(s, {});
    UniqueFromIdentity(UniqueFrom(s, {}), {});
  }

  // ---------------------------------------------------------------------
  // reverse
  // ---------------------------------------------------------------------

  function Reversed<T>(s: seq<T>): (r: seq<T>)
    ensures |r| == |s| && forall i :: 0 <= i < |s| ==> r[i] == s[|s| - 1 - i]
  {
    seq(|s|, i requires 0 <= i < |s| => s[|s| - 1 - i])
  }

  /** reverse: swaps from both ends towards the middle. */
  method Reverse<T>(lines: array<T>)
    modifies lines
    ensures lines[..] == Reversed(old(lines[..]))
  {
    var i, j := 0, lines.Length - 1;
    while i < j
      invariant 0 <= i <= j + 1 <= lines.Length && i + j == lines.Length - 1
      invariant forall k :: 0 <= k < i ==> lines[k] == old(lines[lines.Length - 1 - k])
      invariant forall k :: j < k < lines.Length ==> lines[k] == old(lines[lines.Length - 1 - k])
      invariant forall k :: i <= k <= j ==> lines[k] == old(lines[k])
    {
      lines[i], lines[j] := lines[j], lines[i];
      i, j := i + 1, j - 1;
    }
  }

  /** Reversing twice gives back the original order. */
  lemma ReversedTwice<T>(s: seq<T>)
    ensures Reversed(Reversed(s)) == s
  {
  }

  /** Reversing a permutation keeps it one, and turns ascending order into
      descending order. */
  lemma ReversedSorted(s: seq<Line>)
    requires SortedBy(s, Str)
    ensures multiset(Reversed(s)) == multiset(s)
    ensures forall i, j :: 0 <= i < j < |s| ==> LessEq(Reversed(s)[j].str, Reversed(s)[i].str)
  {
    var r := Reversed(s);
    assert forall i, j :: 0 <= i < j < |s| ==> r[i] == s[|s| - 1 - i] && r[j] == s[|s| - 1 - j];
    ReversedMultiset(s);
  }

  lemma {:induction false} ReversedMultiset<T>(s: seq<T>)
    ensures multiset(Reversed(s)) == multiset(s)
    decreases |s|
  {
    if |s| > 0 {
      var t := s[1..];
      ReversedMultiset(t);
      assert Reversed(s) == Reversed(t) + [s[0]];
      assert s == [s[0]] + t;
    }
  }

  // ---------------------------------------------------------------------
  // sortLines, default path
  // ---------------------------------------------------------------------

  /** The lines the sort works on. */
  function Source(s: seq<Line>, params: Parameters): seq<Line> {
    if params.isOnlyUnique then UniqueFrom(s, {}) else s
  }

  /** The default-path result: the source sorted by text, reversed under -r. */
  function SortLinesSpec(s: seq<Line>, params: Parameters): seq<Line> {
    var sorted := SortBy(Source(s, params), Str);
    if params.isReverse then Reversed(sorted) else sorted
  }

  /** What sortLines promises on the default path: a permutation of the
      (filtered) input, ascending by text, or descending under -r, and no
      two lines with the same text under -u. */
  lemma SortLinesProperties(s: seq<Line>, params: Parameters)
    ensures var r := SortLinesSpec(s, params);
      && multiset(r) == multiset(Source(s, params))
      && (!params.isReverse ==> SortedBy(r, Str))
      && (params.isReverse ==> forall i, j :: 0 <= i < j < |r| ==> LessEq(r[j].str, r[i].str))
      && (params.isOnlyUnique ==> DistinctKeys(r, Str))
  {
    var src := Source(s, params);
    var sorted := SortBy(src, Str);
    SortByProperties(src, Str);
    if params.isReverse {
      ReversedSorted(sorted);
    }
    if params.isOnlyUnique {
      UniqueFromProperties(s, {});
      SortByKeepsDistinctKeys(src, Str);
      if params.isReverse {
        ReversedDistinct(sorted);
      }
    }
  }

  lemma ReversedDistinct(s: seq<Line>)
    requires DistinctKeys(s, Str)
    ensures DistinctKeys(Reversed(s), Str)
  {
    var r := Reversed(s);
    forall i, j | 0 <= i < j < |r| ensures Str(r[i]) != Str(r[j]) {
      assert r[i] == s[|r| - 1 - i] && r[j] == s[|r| - 1 - j];
    }
  }

  /** sort.Slice with the text order, in place. The library sort is not
      stable; this model fixes one order among lines with equal text. */
  method SortInPlace(a: array<Line>)
    modifies a
    ensures a[..] == SortBy(old(a[..]), Str)
  {
    var sorted := SortBy(a[..], Str);
    SortByProperties(a[..], Str);
    assert |sorted| == |multiset(sorted)| == |multiset(a[..])| == a.Length;
    var k := 0;
    while k < a.Length
      invariant 0 <= k <= a.Length
      invariant a[..k] == sorted[..k]
    {
      a[k] := sorted[k];
      k := k + 1;
    }
    assert a[..] == sorted[..k];
  }

  /** sortLines without a column and without the numeric flag. The input is
      sorted in place; with -u the filter first makes a new slice, which is
      then sorted and returned, and the input is left as it was. */
  method SortLines(input: array<Line>, params: Parameters) returns (res: array<Line>)
    requires params.columnNumber <= 0 && !params.isNumericSort
    modifies input
    ensures res[..] == SortLinesSpec(old(input[..]), params)
    ensures !params.isOnlyUnique ==> res == input
    ensures params.isOnlyUnique ==> fresh(res) && input[..] == old(input[..])
  {
    if params.isOnlyUnique {
      var filtered := Unique(input[..]);
      res := new Line[|filtered|](i requires 0 <= i < |filtered| => filtered[i]);
      assert res[..] == filtered;
    } else {
      res := input;
    }
    SortInPlace(res);
    if params.isReverse {
      Reverse(res);
    }
  }
}
