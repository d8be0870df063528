/** Grouping the words of a dictionary into sets of anagrams, in the two
    versions of the exercise: a quadratic one that compares every new word
    with the keys found so far, and a fast one that buckets words by their
    sorted runes. */
module Anagram {
  import opened Common
  import opened GoStrings

  // ---------------------------------------------------------------------
  // sortString and isAnagram
  // ---------------------------------------------------------------------

  predicate Sorted(s: string) {
    forall i, j :: 0 <= i < j < |s| ==> s[i] <= s[j]
  }

  function InsertRune(c: char, s: string): string
    decreases |s|
  {
    if |s| == 0 then [c]
    else if c <= s[0] then [c] + s
    else [s[0]] + InsertRune(c, s[1..])
  }

  /** sortString: insertion of each rune into the sorted rest. */
  function SortString(s: string): string
    decreases |s|
  {
    if |s| == 0 then "" else InsertRune(s[0], SortString(s[1..]))
  }

  lemma SortedCons(x: char, t: string)
    requires Sorted(t) && forall k :: 0 <= k < |t| ==> x <= t[k]
    ensures Sorted([x] + t)
  {
    var r := [x] + t;
    forall i, j | 0 <= i < j < |r| ensures r[i] <= r[j] {
      if i == 0 {
        assert r[j] == t[j - 1];
      } else {
        assert r[i] == t[i - 1] && r[j] == t[j - 1];
      }
    }
  }

  lemma InsertRuneSpec(c: char, s: string)
    requires Sorted(s)
    ensures Sorted(InsertRune(c, s)) && multiset(InsertRune(c, s)) == multiset(s) + multiset{c}
  {
    InsertRuneSorted(c, s);
    InsertRuneMultiset(c, s);
  }

  lemma {:induction false} InsertRuneMultiset(c: char, s: string)
    ensures multiset(InsertRune(c, s)) == multiset(s) + multiset{c}
    decreases |s|
  {
    if |s| > 0 {
      assert s == [s[0]] + s[1..];
      if c > s[0] {
        InsertRuneMultiset(c, s[1..]);
      }
    }
  }

  /** A lower bound of the rune and of the string bounds the result. */
  lemma {:induction false} InsertRuneBound(c: char, s: string, b: char)
    requires b <= c && forall k :: 0 <= k < |s| ==> b <= s[k]
    ensures forall k :: 0 <= k < |InsertRune(c, s)| ==> b <= InsertRune(c, s)[k]
    decreases |s|
  {
    if |s| > 0 && c > s[0] {
      InsertRuneBound(c, s[1..], b);
      var t := InsertRune(c, s[1..]);
      assert InsertRune(c, s) == [s[0]] + t;
      assert forall k :: 0 < k < |t| + 1 ==> ([s[0]] + t)[k] == t[k - 1];
    }
  }

  lemma {:induction false} InsertRuneSorted(c: char, s: string)
    requires Sorted(s)
    ensures Sorted(InsertRune(c, s))
    decreases |s|
  {
    if |s| > 0 {
      if c <= s[0] {
        SortedCons(c, s);
      } else {
        var t := s[1..];
        assert Sorted(t);
        InsertRuneSorted(c, t);
        InsertRuneBound(c, t, s[0]);
        SortedCons(s[0], InsertRune(c, t));
      }
    }
  }

  /** sortString returns the runes of its input, with their multiplicities,
      in nondecreasing code-point order. */
  lemma SortStringSpec(s: string)
    ensures Sorted(SortString(s)) && multiset(SortString(s)) == multiset(s)
  {
    SortStringSorted(s);
    SortStringMultiset(s);
  }

  lemma {:induction false} SortStringSorted(s: string)
    ensures Sorted(SortString(s))
    decreases |s|
  {
    if |s| > 0 {
      SortStringSorted(s[1..]);
      InsertRuneSorted(s[0], SortString(s[1..]));
    }
  }

  lemma {:induction false} SortStringMultiset(s: string)
    ensures multiset(SortString(s)) == multiset(s)
    decreases |s|
  {
    if |s| > 0 {
      var t := SortString(s[1..]);
      SortStringMultiset(s[1..]);
      InsertRuneMultiset(s[0], t);
      assert SortString(s) == InsertRune(s[0], t);
      assert multiset(s) == multiset(s[1..]) + multiset{s[0]} by {
        assert s == [s[0]] + s[1..];
      }
    }
  }

  /** isAnagram: the two words have the same sorted runes. */
  predicate IsAnagram(a: string, b: string): (r: bool)
    ensures r <==> multiset(a) == multiset(b)
  {
    SameSorting(a, b);
    SortString(a) == SortString(b)
  }

  /** Two sorted arrangements of one multiset start with the same rune, its least. */
  lemma SortedHeads(x: string, y: string)
    requires Sorted(x) && Sorted(y) && multiset(x) == multiset(y) && |x| > 0
    ensures |y| > 0 && x[0] == y[0]
  {
    assert |y| > 0 by { assert |multiset(y)| == |x|; }
    assert x[0] in multiset(y);
    var i :| 0 <= i < |y| && y[i] == x[0];
    assert y[0] <= x[0] by { if i > 0 { assert y[0] <= y[i]; } }
    assert y[0] in multiset(x);
    var j :| 0 <= j < |x| && x[j] == y[0];
    assert x[0] <= y[0] by { if j > 0 { assert x[0] <= x[j]; } }
  }

  /** A sorted arrangement of a multiset of runes is unique. */
  lemma {:induction false} SortedUnique(x: string, y: string)
    requires Sorted(x) && Sorted(y) && multiset(x) == multiset(y)
    ensures x == y
    decreases |x|
  {
    if |x| == 0 {
      assert |multiset(y)| == 0;
    } else {
      SortedHeads(x, y);
      SortedTail(x);
      SortedTail(y);
      SortedUnique(x[1..], y[1..]);
      assert x == [x[0]] + x[1..] && y == [y[0]] + y[1..];
    }
  }

  /** Dropping the first rune keeps a string sorted and removes one
      occurrence of that rune. */
  lemma SortedTail(x: string)
    requires Sorted(x) && |x| > 0
    ensures Sorted(x[1..]) && multiset(x[1..]) == multiset(x) - multiset{x[0]}
  {
    assert x == [x[0]] + x[1..];
  }

  /** Two words sort alike exactly when they have the same runes with the
      same multiplicities. */
  lemma SameSorting(a: string, b: string)
    ensures SortString(a) == SortString(b) <==> multiset(a) == multiset(b)
  {
    SortStringSpec(a);
    SortStringSpec(b);
    if multiset(a) == multiset(b) {
      SortedUnique(SortString(a), SortString(b));
    }
  }

  /** The dictionary with every word lower-cased. */
  function Lower(ws: seq<string>): (r: seq<string>)
    ensures |r| == |ws| && forall i :: 0 <= i < |ws| ==> r[i] == ToLower(ws[i])
  {
    seq(|ws|, i requires 0 <= i < |ws| => ToLower(ws[i]))
  }

  // ---------------------------------------------------------------------
  // findAnagram: the quadratic version. The grouping is stated for any
  // signature function `sig` (two words are related when their signatures
  // agree) and used with `SortString`, for which this relation is IsAnagram.
  // ---------------------------------------------------------------------

  /** One word of the outer loop: a word that is already a key is skipped;
      otherwise it is appended to the list of every key it is related to,
      and becomes a key with a one-word list if there is none. */
  function AddWord<S(==)>(r: map<string, seq<string>>, w: string, sig: string -> S): map<string, seq<string>> {
    if w in r then r
    else if exists k :: k in r && sig(w) == sig(k) then
      map k | k in r :: if sig(w) == sig(k) then r[k] + [w] else r[k]
    else r[w := [w]]
  }

  /** The map the outer loop builds from the (already lower-cased) words. */
  function Groups<S(==)>(ws: seq<string>, sig: string -> S): map<string, seq<string>>
    decreases |ws|
  {
    if |ws| == 0 then map[] else AddWord(Groups(ws[..|ws| - 1], sig), ws[|ws| - 1], sig)
  }

  /** Each list starts with its key and holds words related to it; no two
      keys are related. */
  ghost predicate GroupsInv<S>(r: map<string, seq<string>>, sig: string -> S) {
    && (forall k :: k in r ==> |r[k]| >= 1 && r[k][0] == k)
    && (forall k, i :: k in r && 0 <= i < |r[k]| ==> sig(r[k][i]) == sig(k))
    && (forall k1, k2 :: k1 in r && k2 in r && k1 != k2 ==> sig(k1) != sig(k2))
  }

  ghost predicate Covered(r: map<string, seq<string>>, w: string) {
    exists k :: k in r && w in r[k]
  }

  /** Every key is a word of the dictionary at a position before which no
      word is related to it: the first word of its class. */
  ghost predicate FirstSeen<S>(r: map<string, seq<string>>, ws: seq<string>, sig: string -> S) {
    forall k :: k in r ==> exists i :: FirstAt(ws, k, i, sig)
  }

  ghost predicate FirstAt<S>(ws: seq<string>, k: string, i: int, sig: string -> S) {
    0 <= i < |ws| && ws[i] == k && forall j :: 0 <= j < i ==> sig(ws[j]) != sig(k)
  }

  lemma AddWordInv<S>(r: map<string, seq<string>>, w: string, sig: string -> S)
    requires GroupsInv(r, sig)
    ensures GroupsInv(AddWord(r, w, sig), sig)
  {
  }

  lemma AddWordCovered<S>(r: map<string, seq<string>>, init: seq<string>, w: string, sig: string -> S)
    requires GroupsInv(r, sig)
    requires forall j :: 0 <= j < |init| ==> Covered(r, init[j])
    ensures forall j :: 0 <= j < |init| + 1 ==> Covered(AddWord(r, w, sig), (init + [w])[j])
  {
    var r', ws := AddWord(r, w, sig), init + [w];
    forall j | 0 <= j < |ws| ensures Covered(r', ws[j]) {
      if j < |init| {
        assert ws[j] == init[j];
        var k :| k in r && ws[j] in r[k];
        var i :| 0 <= i < |r[k]| && r[k][i] == ws[j];
        assert r'[k][i] == ws[j];
      } else if w in r {
        assert r'[w][0] == w;
      } else if exists k :: k in r && sig(w) == sig(k) {
        var k :| k in r && sig(w) == sig(k);
        assert r'[k][|r'[k]| - 1] == w;
      } else {
        assert r'[w] == [w];
      }
    }
  }

  /** A key of AddWord's map is an old key, or the new word when it is
      related to no old key. */
  lemma AddWordKeys<S>(r: map<string, seq<string>>, w: string, sig: string -> S)
    ensures forall k :: k in AddWord(r, w, sig) && k !in r ==>
      k == w && forall k' :: k' in r ==> sig(k') != sig(w)
  {
  }

  /** The first-seen property survives one step whose new keys are new
      words related to no old key. */
  lemma FirstSeenStep<S>(r: map<string, seq<string>>, r': map<string, seq<string>>,
                         init: seq<string>, w: string, sig: string -> S)
    requires FirstSeen(r, init, sig)
    requires forall j :: 0 <= j < |init| ==> Covered(r, init[j])
    requires forall k, i :: k in r && 0 <= i < |r[k]| ==> sig(r[k][i]) == sig(k)
    requires forall k :: k in r' && k !in r ==> k == w && forall k' :: k' in r ==> sig(k') != sig(w)
    ensures FirstSeen(r', init + [w], sig)
  {
    var ws := init + [w];
    forall k | k in r' ensures exists i :: FirstAt(ws, k, i, sig) {
      if k in r {
        var i :| FirstAt(init, k, i, sig);
        assert FirstAt(ws, k, i, sig);
      } else {
        // `w` becomes a key: an earlier word related to it would lie in the
        // list of a key related to `w`.
        forall j | 0 <= j < |init| ensures sig(ws[j]) != sig(k) {
          assert ws[j] == init[j];
          var k' :| k' in r && init[j] in r[k'];
          var i :| 0 <= i < |r[k']| && r[k'][i] == init[j];
        }
        assert FirstAt(ws, k, |init|, sig);
      }
    }
  }

  lemma {:induction false} GroupsLemma<S>(ws: seq<string>, sig: string -> S)
    ensures GroupsInv(Groups(ws, sig), sig) && FirstSeen(Groups(ws, sig), ws, sig)
    ensures forall j :: 0 <= j < |ws| ==> Covered(Groups(ws, sig), ws[j])
    decreases |ws|
  {
    if |ws| > 0 {
      var init, w := ws[..|ws| - 1], ws[|ws| - 1];
      GroupsLemma(init, sig);
      var r := Groups(init, sig);
      assert Groups(ws, sig) == AddWord(r, w, sig);
      AddWordInv(r, w, sig);
      AddWordCovered(r, init, w, sig);
      AddWordKeys(r, w, sig);
      FirstSeenStep(r, AddWord(r, w, sig), init, w, sig);
      assert init + [w] == ws;
    }
  }

  /** The map left by the scan over the keys, plus the new key when the
      scan found no related key, is one step of the outer loop. */
  lemma ScanResult<S>(before: map<string, seq<string>>, result: map<string, seq<string>>,
                      word: string, unique: bool, sig: string -> S)
    requires word !in before && result.Keys == before.Keys
    requires forall k :: k in result ==>
      result[k] == if sig(word) == sig(k) then before[k] + [word] else before[k]
    requires unique <==> forall k :: k in before ==> sig(word) != sig(k)
    ensures (if unique then result[word := [word]] else result) == AddWord(before, word, sig)
  {
    if unique {
      assert result == before;
    }
  }

  /** What findAnagram promises about its map, for lower-cased words `ws`:
      every list starts with its key and holds anagrams of it, keys are
      pairwise not anagrams, every key is a word that comes no later than
      any of its anagrams, and every word is in some list. */
  lemma GroupsProperties(ws: seq<string>)
    ensures var r := Groups(ws, SortString);
      && (forall k :: k in r ==> |r[k]| >= 1 && r[k][0] == k)
      && (forall k, i :: k in r && 0 <= i < |r[k]| ==> IsAnagram(r[k][i], k))
      && (forall k1, k2 :: k1 in r && k2 in r && k1 != k2 ==> !IsAnagram(k1, k2))
      && (forall k :: k in r ==>
            exists i :: 0 <= i < |ws| && ws[i] == k && (forall j :: 0 <= j < i ==> !IsAnagram(ws[j], k)))
      && (forall j :: 0 <= j < |ws| ==> exists k :: k in r && ws[j] in r[k])
  {
    GroupsLemma(ws, SortString);
  }

  /** The first loop of findAnagram: every word is lower-cased in place. */
  method LowerInPlace(words: array<string>)
    modifies words
    ensures words[..] == Lower(old(words[..]))
  {
    var n := 0;
    while n < words.Length
      invariant 0 <= n <= words.Length
      invariant words[..n] == Lower(old(words[..]))[..n]
      invariant words[n..] == old(words[n..])
    {
      words[n] := ToLower(words[n]);
      n := n + 1;
    }
    assert words[..] == words[..n] && Lower(old(words[..])) == Lower(old(words[..]))[..n];
  }

  /** The inner loop of findAnagram: `word` is appended to the list of every
      key it is an anagram of; `unique` tells whether there was none. */
  method ScanKeys(before: map<string, seq<string>>, word: string)
    returns (result: map<string, seq<string>>, unique: bool)
    ensures result.Keys == before.Keys
    ensures forall k :: k in result ==>
      result[k] == if IsAnagram(word, k) then before[k] + [word] else before[k]
    ensures unique <==> forall k :: k in before ==> !IsAnagram(word, k)
  {
    result, unique := before, true;
    var todo := before.Keys;
    while todo != {}
      invariant todo <= before.Keys && result.Keys == before.Keys
      invariant forall k :: k in result ==>
        result[k] == if k !in todo && IsAnagram(word, k) then before[k] + [word] else before[k]
      invariant unique <==> forall k :: k in before && k !in todo ==> !IsAnagram(word, k)
      decreases |todo|
    {
      var key :| key in todo;
      if IsAnagram(word, key) {
        unique := false;
        result := result[key := result[key] + [word]];
      }
      todo := todo - {key};
    }
  }

  /** findAnagram: lower-cases the dictionary in place, then groups it. */
  method FindAnagram(words: array<string>) returns (result: map<string, seq<string>>)
    modifies words
    ensures words[..] == Lower(old(words[..]))
    ensures result == Groups(words[..], SortString)
  {
    LowerInPlace(words);
    ghost var ws := words[..];
    result := map[];
    var idx := 0;
    while idx < words.Length
      invariant 0 <= idx <= words.Length && words[..] == ws
      invariant result == Groups(ws[..idx], SortString)
    {
      var word := words[idx];
      assert ws[..idx + 1][..idx] == ws[..idx];
      if word !in result {
        ghost var before := result;
        var unique;
        result, unique := ScanKeys(result, word);
        ScanResult(before, result, word, unique, SortString);
        if unique {
          result := result[word := [word]];
        }
      }
      idx := idx + 1;
    }
    assert ws[..idx] == ws;
  }

  // ---------------------------------------------------------------------
  // findAnagramFast: words bucketed by their sorted runes. As above, the
  // buckets are stated for any signature function and used with SortString.
  // ---------------------------------------------------------------------

  /** setOfAnagrams: the distinct words of one bucket, as a set and in the
      order they were first met. */
  datatype AnagramSet = AnagramSet(anagrams: set<string>, arr: seq<string>)

  /** One word of the first loop. */
  function AddFast<S(==)>(m: map<S, AnagramSet>, w: string, sig: string -> S): map<S, AnagramSet> {
    var key := sig(w);
    if key in m then
      if w in m[key].anagrams then m
      else m[key := AnagramSet(m[key].anagrams + {w}, m[key].arr + [w])]
    else m[key := AnagramSet({w}, [w])]
  }

  /** The buckets the first loop builds from the lower-cased words. */
  function Collect<S(==)>(ws: seq<string>, sig: string -> S): map<S, AnagramSet>
    decreases |ws|
  {
    if |ws| == 0 then map[] else AddFast(Collect(ws[..|ws| - 1], sig), ws[|ws| - 1], sig)
  }

  lemma CollectSnoc<S>(ws: seq<string>, n: nat, sig: string -> S)
    requires n < |ws|
    ensures Collect(ws[..n + 1], sig) == AddFast(Collect(ws[..n], sig), ws[n], sig)
  {
    assert ws[..n + 1][..n] == ws[..n];
  }

  function Id(s: string): string { s }

  /** The second loop's result after the buckets `done`: exactly the first
      words of the buckets of at least two words are keys, each with its
      bucket sorted. */
  ghost predicate ResultFor<S>(m: map<S, AnagramSet>, done: set<S>, r: map<string, seq<string>>) {
    && (forall k :: k in r <==> exists key :: key in done && key in m && |m[key].arr| >= 2 && m[key].arr[0] == k)
    && (forall key :: key in done && key in m && |m[key].arr| >= 2 ==>
          m[key].arr[0] in r && r[m[key].arr[0]] == SortBy(m[key].arr, Id))
  }

  /** Each bucket is a non-empty list of distinct words and its set agrees
      with the list. */
  ghost predicate WellFormed<S>(m: map<S, AnagramSet>) {
    forall key :: key in m ==>
      |m[key].arr| >= 1 && m[key].anagrams == Elems(m[key].arr) && NoDup(m[key].arr)
  }

  /** Only words of `ws` with the bucket's signature are in a bucket. */
  ghost predicate Signed<S>(m: map<S, AnagramSet>, ws: seq<string>, sig: string -> S) {
    forall key, i :: key in m && 0 <= i < |m[key].arr| ==> sig(m[key].arr[i]) == key && m[key].arr[i] in ws
  }

  /** Every word of `ws` is in the bucket of its signature. */
  ghost predicate Covers<S>(m: map<S, AnagramSet>, ws: seq<string>, sig: string -> S) {
    forall j :: 0 <= j < |ws| ==> sig(ws[j]) in m && ws[j] in m[sig(ws[j])].arr
  }

  /** A bucket's first word is the first word of `ws` with its signature. */
  ghost predicate HeadsFirst<S>(m: map<S, AnagramSet>, ws: seq<string>, sig: string -> S) {
    forall key :: key in m && |m[key].arr| >= 1 ==> exists i :: FirstAt(ws, m[key].arr[0], i, sig)
  }

  /** What the buckets hold after the words `ws`. */
  ghost predicate CollectInv<S>(m: map<S, AnagramSet>, ws: seq<string>, sig: string -> S) {
    WellFormed(m) && Signed(m, ws, sig) && Covers(m, ws, sig) && HeadsFirst(m, ws, sig)
  }

  lemma AddFastWellFormed<S>(m: map<S, AnagramSet>, w: string, sig: string -> S)
    requires WellFormed(m)
    ensures WellFormed(AddFast(m, w, sig))
  {
    var key := sig(w);
    if key in m && w !in m[key].anagrams {
      var a := m[key].arr;
      assert NoDup(a + [w]);
      assert Elems(a + [w]) == Elems(a) + {w};
    }
  }

  lemma AddFastSigned<S>(m: map<S, AnagramSet>, init: seq<string>, w: string, sig: string -> S)
    requires Signed(m, init, sig)
    ensures Signed(AddFast(m, w, sig), init + [w], sig)
  {
    assert forall x :: x in init ==> x in init + [w];
  }

  lemma AddFastCovers<S>(m: map<S, AnagramSet>, init: seq<string>, w: string, sig: string -> S)
    requires WellFormed(m) && Covers(m, init, sig)
    ensures Covers(AddFast(m, w, sig), init + [w], sig)
  {
    var m', ws := AddFast(m, w, sig), init + [w];
    forall j | 0 <= j < |ws| ensures sig(ws[j]) in m' && ws[j] in m'[sig(ws[j])].arr {
      if j < |init| {
        assert ws[j] == init[j];
        var k := sig(init[j]);
        var i :| 0 <= i < |m[k].arr| && m[k].arr[i] == init[j];
        assert m'[k].arr[i] == init[j];
      } else {
        assert ws[j] == w;
      }
    }
  }

  /** AddFast keeps the first word of every bucket and starts a new bucket
      with the new word. */
  lemma AddFastHeads<S>(m: map<S, AnagramSet>, w: string, sig: string -> S)
    requires WellFormed(m)
    ensures forall k :: k in m ==> k in AddFast(m, w, sig) && AddFast(m, w, sig)[k].arr[0] == m[k].arr[0]
    ensures forall k :: k in AddFast(m, w, sig) && k !in m ==> k == sig(w) && AddFast(m, w, sig)[k].arr == [w]
  {
  }

  lemma HeadsFirstStep<S>(m: map<S, AnagramSet>, m': map<S, AnagramSet>, init: seq<string>, w: string, sig: string -> S)
    requires WellFormed(m) && HeadsFirst(m, init, sig)
    requires forall j :: 0 <= j < |init| ==> sig(init[j]) in m
    requires forall k :: k in m ==> k in m' && |m'[k].arr| >= 1 && m'[k].arr[0] == m[k].arr[0]
    requires forall k :: k in m' && k !in m ==> k == sig(w) && m'[k].arr == [w]
    ensures HeadsFirst(m', init + [w], sig)
  {
    var ws := init + [w];
    forall k | k in m' && |m'[k].arr| >= 1 ensures exists i :: FirstAt(ws, m'[k].arr[0], i, sig) {
      if k in m {
        var i :| FirstAt(init, m[k].arr[0], i, sig);
        assert FirstAt(ws, m'[k].arr[0], i, sig);
      } else {
        forall j | 0 <= j < |init| ensures sig(ws[j]) != sig(w) {
          assert ws[j] == init[j];
        }
        assert FirstAt(ws, w, |init|, sig);
      }
    }
  }

  lemma AddFastInv<S>(m: map<S, AnagramSet>, init: seq<string>, w: string, sig: string -> S)
    requires CollectInv(m, init, sig)
    ensures CollectInv(AddFast(m, w, sig), init + [w], sig)
  {
    AddFastWellFormed(m, w, sig);
    AddFastSigned(m, init, w, sig);
    AddFastCovers(m, init, w, sig);
    AddFastHeads(m, w, sig);
    HeadsFirstStep(m, AddFast(m, w, sig), init, w, sig);
  }

  lemma {:induction false} CollectLemma<S>(ws: seq<string>, sig: string -> S)
    ensures CollectInv(Collect(ws, sig), ws, sig)
    decreases |ws|
  {
    if |ws| > 0 {
      var init, w := ws[..|ws| - 1], ws[|ws| - 1];
      CollectLemma(init, sig);
      AddFastInv(Collect(init, sig), init, w, sig);
      assert init + [w] == ws;
    }
  }

  /** Every bucket has a first word, and it carries the bucket's signature. */
  lemma CollectHeads<S>(ws: seq<string>, sig: string -> S)
    ensures forall k :: k in Collect(ws, sig) ==>
      |Collect(ws, sig)[k].arr| >= 1 && sig(Collect(ws, sig)[k].arr[0]) == k
  {
    CollectLemma(ws, sig);
  }

  /** One bucket more in the second loop adds its entry, if it has at
      least two words, and changes no other. */
  lemma ResultStep<S>(m: map<S, AnagramSet>, done: set<S>, key: S, r: map<string, seq<string>>, sig: string -> S)
    requires forall k :: k in m ==> |m[k].arr| >= 1 && sig(m[k].arr[0]) == k
    requires key in m && key !in done && ResultFor(m, done, r)
    ensures var v := m[key];
      ResultFor(m, done + {key}, if |v.arr| == 1 then r else r[v.arr[0] := SortBy(v.arr, Id)])
  {
    var v := m[key];
    if |v.arr| != 1 {
      var r' := r[v.arr[0] := SortBy(v.arr, Id)];
      forall k2 | k2 in done && k2 in m && |m[k2].arr| >= 2
        ensures m[k2].arr[0] in r' && r'[m[k2].arr[0]] == SortBy(m[k2].arr, Id)
      {
        assert sig(m[k2].arr[0]) == k2 && sig(v.arr[0]) == key;
      }
      forall k | k in r' ensures exists k2 :: k2 in done + {key} && k2 in m && |m[k2].arr| >= 2 && m[k2].arr[0] == k {
        if k == v.arr[0] {
          assert key in done + {key};
        } else {
          var k2 :| k2 in done && k2 in m && |m[k2].arr| >= 2 && m[k2].arr[0] == k;
          assert k2 in done + {key};
        }
      }
    }
  }

  /** What one entry of the result holds. */
  lemma EntryFacts<S>(m: map<S, AnagramSet>, ws: seq<string>, sig: string -> S, r: map<string, seq<string>>, k: string)
    requires CollectInv(m, ws, sig) && ResultFor(m, m.Keys, r) && k in r
    ensures sig(k) in m && m[sig(k)].arr[0] == k && |m[sig(k)].arr| >= 2
    ensures multiset(r[k]) == multiset(m[sig(k)].arr)
    ensures |r[k]| >= 2 && SortedBy(r[k], Id) && NoDup(r[k]) && k in r[k]
    ensures forall x :: x in r[k] <==> x in m[sig(k)].arr
    ensures exists i :: FirstAt(ws, k, i, sig)
  {
    var key :| key in m.Keys && key in m && |m[key].arr| >= 2 && m[key].arr[0] == k;
    var a := m[key].arr;
    assert sig(a[0]) == key;
    SortByProperties(a, Id);
    assert DistinctKeys(a, Id) by {
      forall i, j | 0 <= i < j < |a| ensures Id(a[i]) != Id(a[j]) {
        assert a[i] != a[j];
      }
    }
    SortByKeepsDistinctKeys(a, Id);
    var t := SortBy(a, Id);
    assert |t| == |multiset(t)| == |multiset(a)| == |a|;
    forall i, j | 0 <= i < j < |t| ensures t[i] != t[j] {
      assert Id(t[i]) != Id(t[j]);
    }
    forall x ensures x in t <==> x in a {
      assert x in t <==> x in multiset(t);
      assert x in a <==> x in multiset(a);
    }
    assert a[0] in a;
  }

  /** A sequence holding two different values has at least two elements. */
  lemma TwoDistinct(s: seq<string>, x: string, y: string)
    requires x in s && y in s && x != y
    ensures |s| >= 2
  {
  }

  ghost predicate IsResult<S>(ws: seq<string>, sig: string -> S, r: map<string, seq<string>>) {
    ResultFor(Collect(ws, sig), Collect(ws, sig).Keys, r)
  }

  lemma ResultShape<S>(ws: seq<string>, sig: string -> S, r: map<string, seq<string>>)
    requires IsResult(ws, sig, r)
    ensures forall k :: k in r ==> |r[k]| >= 2 && SortedBy(r[k], Id) && NoDup(r[k]) && k in r[k]
  {
    CollectLemma(ws, sig);
    forall k | k in r ensures |r[k]| >= 2 && SortedBy(r[k], Id) && NoDup(r[k]) && k in r[k] {
      EntryFacts(Collect(ws, sig), ws, sig, r, k);
    }
  }

  lemma ResultMembers<S>(ws: seq<string>, sig: string -> S, r: map<string, seq<string>>)
    requires IsResult(ws, sig, r)
    ensures forall k, x :: k in r && x in r[k] ==> sig(x) == sig(k) && x in ws
  {
    var m := Collect(ws, sig);
    CollectLemma(ws, sig);
    forall k, x | k in r && x in r[k] ensures sig(x) == sig(k) && x in ws {
      EntryFacts(m, ws, sig, r, k);
      var i :| 0 <= i < |m[sig(k)].arr| && m[sig(k)].arr[i] == x;
    }
  }

  lemma ResultFirst<S>(ws: seq<string>, sig: string -> S, r: map<string, seq<string>>)
    requires IsResult(ws, sig, r)
    ensures forall k :: k in r ==> exists i :: FirstAt(ws, k, i, sig)
  {
    CollectLemma(ws, sig);
    forall k | k in r ensures exists i :: FirstAt(ws, k, i, sig) {
      EntryFacts(Collect(ws, sig), ws, sig, r, k);
    }
  }

  lemma ResultDisjoint<S>(ws: seq<string>, sig: string -> S, r: map<string, seq<string>>)
    requires IsResult(ws, sig, r)
    ensures forall k1, k2, x :: k1 in r && k2 in r && x in r[k1] && x in r[k2] ==> k1 == k2
  {
    var m := Collect(ws, sig);
    CollectLemma(ws, sig);
    forall k1, k2, x | k1 in r && k2 in r && x in r[k1] && x in r[k2] ensures k1 == k2 {
      EntryFacts(m, ws, sig, r, k1);
      EntryFacts(m, ws, sig, r, k2);
      var i1 :| 0 <= i1 < |m[sig(k1)].arr| && m[sig(k1)].arr[i1] == x;
      var i2 :| 0 <= i2 < |m[sig(k2)].arr| && m[sig(k2)].arr[i2] == x;
    }
  }

  lemma ResultCoverage<S>(ws: seq<string>, sig: string -> S, r: map<string, seq<string>>, j: int)
    requires IsResult(ws, sig, r) && 0 <= j < |ws|
    ensures (exists k :: k in r && ws[j] in r[k]) <==>
            (exists j' :: 0 <= j' < |ws| && ws[j'] != ws[j] && sig(ws[j']) == sig(ws[j]))
  {
    if exists k :: k in r && ws[j] in r[k] {
      var k :| k in r && ws[j] in r[k];
      CoveredHasPartner(ws, sig, r, j, k);
    }
    if exists j' :: 0 <= j' < |ws| && ws[j'] != ws[j] && sig(ws[j']) == sig(ws[j]) {
      var j' :| 0 <= j' < |ws| && ws[j'] != ws[j] && sig(ws[j']) == sig(ws[j]);
      PartnerCovered(ws, sig, r, j, j');
    }
  }

  /** A listed word has another word with its signature in the dictionary. */
  lemma CoveredHasPartner<S>(ws: seq<string>, sig: string -> S, r: map<string, seq<string>>, j: int, k: string)
    requires IsResult(ws, sig, r) && 0 <= j < |ws| && k in r && ws[j] in r[k]
    ensures exists j' :: 0 <= j' < |ws| && ws[j'] != ws[j] && sig(ws[j']) == sig(ws[j])
  {
    var m := Collect(ws, sig);
    CollectLemma(ws, sig);
    var a := m[sig(ws[j])].arr;
    EntryFacts(m, ws, sig, r, k);
    var i :| 0 <= i < |m[sig(k)].arr| && m[sig(k)].arr[i] == ws[j];
    assert sig(ws[j]) == sig(k);
    var other := if a[0] != ws[j] then a[0] else a[1];
    assert other in a && other != ws[j] by {
      if a[0] == ws[j] { assert a[1] != a[0]; }
    }
    var j' :| 0 <= j' < |ws| && ws[j'] == other;
  }

  /** A word with a partner of the same signature is listed. */
  lemma PartnerCovered<S>(ws: seq<string>, sig: string -> S, r: map<string, seq<string>>, j: int, j': int)
    requires IsResult(ws, sig, r) && 0 <= j < |ws| && 0 <= j' < |ws|
    requires ws[j'] != ws[j] && sig(ws[j']) == sig(ws[j])
    ensures exists k :: k in r && ws[j] in r[k]
  {
    var m := Collect(ws, sig);
    CollectLemma(ws, sig);
    var a := m[sig(ws[j])].arr;
    TwoDistinct(a, ws[j], ws[j']);
    assert a[0] in r;
    EntryFacts(m, ws, sig, r, a[0]);
    assert ws[j] in r[a[0]];
  }

  // What findAnagramFast promises about its map for the dictionary `words`
  // (`ws` below is the lower-cased dictionary).

  /** Every list has at least two words, is sorted ascending, has no
      repeats, and holds its key. */
  lemma FastShape(words: seq<string>, r: map<string, seq<string>>)
    requires IsResult(Lower(words), SortString, r)
    ensures forall k :: k in r ==> |r[k]| >= 2 && SortedBy(r[k], Id) && NoDup(r[k]) && k in r[k]
  {
    ResultShape(Lower(words), SortString, r);
  }

  /** Every word of a list is a lower-cased dictionary word and an anagram
      of the key. */
  lemma FastMembers(words: seq<string>, r: map<string, seq<string>>)
    requires IsResult(Lower(words), SortString, r)
    ensures forall k, x :: k in r && x in r[k] ==> IsAnagram(x, k) && x in Lower(words)
  {
    var ws := Lower(words);
    ResultMembers(ws, SortString, r);
    forall k, x | k in r && x in r[k] ensures IsAnagram(x, k) && x in ws {
      assert SortString(x) == SortString(k) && x in ws;
    }
  }

  /** The key is the first word of the dictionary with its letters. */
  lemma FastFirstSeen(words: seq<string>, r: map<string, seq<string>>)
    requires IsResult(Lower(words), SortString, r)
    ensures var ws := Lower(words);
      forall k :: k in r ==>
        exists i :: 0 <= i < |ws| && ws[i] == k && (forall j :: 0 <= j < i ==> !IsAnagram(ws[j], k))
  {
    ResultFirst(Lower(words), SortString, r);
  }

  /** No word is in two lists. */
  lemma FastDisjoint(words: seq<string>, r: map<string, seq<string>>)
    requires IsResult(Lower(words), SortString, r)
    ensures forall k1, k2, x :: k1 in r && k2 in r && x in r[k1] && x in r[k2] ==> k1 == k2
  {
    ResultDisjoint(Lower(words), SortString, r);
  }

  /** A word is in some list exactly when the dictionary holds a different
      word that is an anagram of it: one-word sets are left out. */
  lemma FastCoverage(words: seq<string>, r: map<string, seq<string>>, j: int)
    requires IsResult(Lower(words), SortString, r) && 0 <= j < |words|
    ensures var ws := Lower(words);
      (exists k :: k in r && ws[j] in r[k]) <==>
      (exists j' :: 0 <= j' < |ws| && ws[j'] != ws[j] && IsAnagram(ws[j'], ws[j]))
  {
    ResultCoverage(Lower(words), SortString, r, j);
  }

  /** One word of the first loop: the word joins the bucket of its sorted
      runes unless it is there already; a new bucket holds just the word. */
  method AddToBucket(set_: map<string, AnagramSet>, word: string, sortedWord: string)
    returns (next: map<string, AnagramSet>)
    requires sortedWord == SortString(word)
    ensures next == AddFast(set_, word, SortString)
  {
    next := set_;
    if sortedWord in next {
      var val := next[sortedWord];
      if word !in val.anagrams {
        next := next[sortedWord := AnagramSet(val.anagrams + {word}, val.arr + [word])];
      }
    } else {
      next := next[sortedWord := AnagramSet({word}, [word])];
    }
  }

  /** The first loop of findAnagramFast: every word, lower-cased, goes into
      the bucket of its sorted runes unless it is there already. Each
      `*setOfAnagrams` is modelled as a value in the map, so appending to a
      bucket replaces the map entry. */
  method BuildSets(words: seq<string>) returns (set_: map<string, AnagramSet>)
    ensures set_ == Collect(Lower(words), SortString)
  {
    ghost var ws := Lower(words);
    set_ := map[];
    var n := 0;
    while n < |words|
      invariant 0 <= n <= |words|
      invariant set_ == Collect(ws[..n], SortString)
    {
      var word := ToLower(words[n]);
      var sortedWord := SortString(word);
      set_ := AddToBucket(set_, word, sortedWord);
      assert ws[n] == word;
      CollectSnoc(ws, n, SortString);
      n := n + 1;
    }
    assert ws[..n] == ws;
  }

  /** findAnagramFast: the buckets, then every bucket of at least two words
      sorted under its first word. */
  method FindAnagramFast(words: seq<string>) returns (result: map<string, seq<string>>)
    ensures IsResult(Lower(words), SortString, result)
  {
    var set_ := BuildSets(words);
    CollectHeads(Lower(words), SortString);
    result := map[];
    var todo := set_.Keys;
    while todo != {}
      invariant todo <= set_.Keys
      invariant ResultFor(set_, set_.Keys - todo, result)
      decreases |todo|
    {
      var key :| key in todo;
      ResultStep(set_, set_.Keys - todo, key, result, SortString);
      assert set_.Keys - todo + {key} == set_.Keys - (todo - {key});
      var v := set_[key];
      if |v.arr| != 1 {
        result := result[v.arr[0] := SortBy(v.arr, Id)];
      }
      todo := todo - {key};
    }
  }
}
