/** Shared vocabulary: an Option type, de-duplication against a set of
    already seen values, the byte-wise string order Go uses for `<` on
    strings, and an insertion sort that stands for the library sorts
    (`sort.Strings`, `sort.Slice` with a string key). */
module Common {

  datatype Option<T> = None | Some(value: T)

  /** The set of elements of a sequence. */
  function Elems<T>(s: seq<T>): set<T> {
    set x | x in s
  }

  lemma AppendAssoc<T>(a: seq<T>, b: seq<T>, c: seq<T>)
    ensures a + (b + c) == (a + b) + c
  {
  }

  ghost predicate NoDup<T>(s: seq<T>) {
    forall i, j :: 0 <= i < j < |s| ==> s[i] != s[j]
  }

  // ---------------------------------------------------------------------
  // De-duplication: keep an element only if it is neither in `seen` nor
  // equal to an element kept before it.
  // ---------------------------------------------------------------------

  function Fresh<T>(s: seq<T>, seen: set<T>): seq<T>
    decreases |s|
  {
    if |s| == 0 then []
    else if s[0] in seen then Fresh(s[1..], seen)
    else [s[0]] + Fresh(s[1..], seen + {s[0]})
  }

  /** What Fresh keeps: nothing from `seen`, no element twice, only
      elements of the input, and together with `seen` it covers the input. */
  lemma {:induction false} FreshProperties<T>(s: seq<T>, seen: set<T>)
    ensures var r := Fresh(s, seen);
      && (forall x :: x in r ==> x !in seen && x in s)
      && NoDup(r)
      && seen + Elems(r) == seen + Elems(s)
      && |r| <= |s|
    decreases |s|
  {
    if |s| > 0 {
      var t := s[1..];
      if s[0] in seen {
        FreshProperties(t, seen);
      } else {
        FreshProperties(t, seen + {s[0]});
        var r := Fresh(s, seen);
        assert r == [s[0]] + Fresh(t, seen + {s[0]});
        assert Elems(s) == {s[0]} + Elems(t);
        assert Elems(r) == {s[0]} + Elems(Fresh(t, seen + {s[0]}));
      }
    }
  }

  /** Running Fresh over a concatenation is running it over the first part
      and then over the second part with everything of the first part seen. */
  lemma {:induction false} FreshAppend<T>(a: seq<T>, b: seq<T>, seen: set<T>)
    ensures Fresh(a + b, seen) == Fresh(a, seen) + Fresh(b, seen + Elems(a))
    decreases |a|
  {
    if |a| == 0 {
      assert a + b == b;
      assert seen + Elems(a) == seen;
    } else {
      assert (a + b)[0] == a[0];
      assert (a + b)[1..] == a[1..] + b;
      assert Elems(a) == {a[0]} + Elems(a[1..]);
      if a[0] in seen {
        FreshAppend(a[1..], b, seen);
        assert seen + Elems(a[1..]) == seen + Elems(a);
      } else {
        FreshAppend(a[1..], b, seen + {a[0]});
        assert seen + {a[0]} + Elems(a[1..]) == seen + Elems(a);
      }
    }
  }

  /** A sequence without repeats that avoids `seen` passes through unchanged;
      in particular Fresh(Fresh(s, {}), {}) == Fresh(s, {}). */
  lemma {:induction false} FreshIdentity<T>(s: seq<T>, seen: set<T>)
    requires NoDup(s) && forall x :: x in s ==> x !in seen
    ensures Fresh(s, seen) == s
    decreases |s|
  {
    if |s| > 0 {
      assert s[0] !in seen;
      var t := s[1..];
      assert forall x :: x in t ==> x !in seen + {s[0]} by {
        forall x | x in t ensures x !in seen + {s[0]} {
          var k :| 0 <= k < |t| && t[k] == x;
          assert s[k + 1] == x;
        }
      }
      FreshIdentity(t, seen + {s[0]});
    }
  }

  lemma FreshIdempotent<T>(s: seq<T>)
    ensures Fresh(Fresh(s, {}), {}) == Fresh(s, {})
  {
    FreshProperties(s, {});
    FreshIdentity(Fresh(s, {}), {});
  }

  // ---------------------------------------------------------------------
  // Go compares strings byte-wise; on UTF-8 that is the code point order,
  // so `a < b` is the lexicographic order of the rune sequences.
  // ---------------------------------------------------------------------

  predicate LessEq(a: string, b: string)
    decreases |a|
  {
    if |a| == 0 then true
    else if |b| == 0 then false
    else if a[0] != b[0] then a[0] < b[0]
    else LessEq(a[1..], b[1..])
  }

  lemma {:induction false} LessEqTotal(a: string, b: string)
    ensures LessEq(a, b) || LessEq(b, a)
    decreases |a|
  {
    if |a| > 0 && |b| > 0 && a[0] == b[0] {
      LessEqTotal(a[1..], b[1..]);
    }
  }

  lemma {:induction false} LessEqTransitive(a: string, b: string, c: string)
    requires LessEq(a, b) && LessEq(b, c)
    ensures LessEq(a, c)
    decreases |a|
  {
    if |a| > 0 && |b| > 0 && |c| > 0 && a[0] == b[0] && b[0] == c[0] {
      LessEqTransitive(a[1..], b[1..], c[1..]);
    }
  }

  lemma {:induction false} LessEqAntisymmetric(a: string, b: string)
    requires LessEq(a, b) && LessEq(b, a)
    ensures a == b
    decreases |a|
  {
    if |a| > 0 {
      LessEqAntisymmetric(a[1..], b[1..]);
      assert a == [a[0]] + a[1..] && b == [b[0]] + b[1..];
    }
  }

  // ---------------------------------------------------------------------
  // Sorting by a string key (insertion sort).
  // ---------------------------------------------------------------------

  ghost predicate SortedBy<T>(s: seq<T>, key: T -> string) {
    forall i, j :: 0 <= i < j < |s| ==> LessEq(key(s[i]), key(s[j]))
  }

  ghost predicate DistinctKeys<T>(s: seq<T>, key: T -> string) {
    forall i, j :: 0 <= i < j < |s| ==> key(s[i]) != key(s[j])
  }

  function Insert<T>(x: T, s: seq<T>, key: T -> string): seq<T>
    decreases |s|
  {
    if |s| == 0 then [x]
    else if LessEq(key(x), key(s[0])) then [x] + s
    else [s[0]] + Insert(x, s[1..], key)
  }

  function SortBy<T>(s: seq<T>, key: T -> string): seq<T>
    decreases |s|
  {
    if |s| == 0 then [] else Insert(s[0], SortBy(s[1..], key), key)
  }

  lemma InsertProperties<T>(x: T, s: seq<T>, key: T -> string)
    requires SortedBy(s, key)
    ensures multiset(Insert(x, s, key)) == multiset(s) + multiset{x}
    ensures SortedBy(Insert(x, s, key), key)
  {
    InsertPermutation(x, s, key);
    InsertSorted(x, s, key);
  }

  /** Every element of the result is the inserted one or one of `s`. */
  lemma {:induction false} InsertElems<T>(x: T, s: seq<T>, key: T -> string)
    ensures forall y :: y in Insert(x, s, key) ==> y == x || y in s
    decreases |s|
  {
    if |s| > 0 && !LessEq(key(x), key(s[0])) {
      InsertElems(x, s[1..], key);
      assert forall y :: y in s[1..] ==> y in s;
    }
  }

  lemma ConsSorted<T>(h: T, t: seq<T>, key: T -> string)
    requires SortedBy(t, key) && forall y :: y in t ==> LessEq(key(h), key(y))
    ensures SortedBy([h] + t, key)
  {
    var r := [h] + t;
    forall i, j | 0 <= i < j < |r| ensures LessEq(key(r[i]), key(r[j])) {
      assert r[j] == t[j - 1];
      if i > 0 {
        assert r[i] == t[i - 1];
      }
    }
  }

  lemma ConsDistinct<T>(h: T, t: seq<T>, key: T -> string)
    requires DistinctKeys(t, key) && forall y :: y in t ==> key(h) != key(y)
    ensures DistinctKeys([h] + t, key)
  {
    var r := [h] + t;
    forall i, j | 0 <= i < j < |r| ensures key(r[i]) != key(r[j]) {
      assert r[j] == t[j - 1];
      if i > 0 {
        assert r[i] == t[i - 1];
      }
    }
  }

  lemma {:induction false} InsertSorted<T>(x: T, s: seq<T>, key: T -> string)
    requires SortedBy(s, key)
    ensures SortedBy(Insert(x, s, key), key)
    decreases |s|
  {
    if |s| > 0 {
      if LessEq(key(x), key(s[0])) {
        forall y | y in s ensures LessEq(key(x), key(y)) {
          var k :| 0 <= k < |s| && s[k] == y;
          if k > 0 {
            LessEqTransitive(key(x), key(s[0]), key(s[k]));
          }
        }
        ConsSorted(x, s, key);
      } else {
        LessEqTotal(key(x), key(s[0]));
        var t := s[1..];
        assert SortedBy(t, key);
        InsertSorted(x, t, key);
        InsertElems(x, t, key);
        forall y | y in Insert(x, t, key) ensures LessEq(key(s[0]), key(y)) {
          if y != x {
            var k :| 0 <= k < |t| && t[k] == y;
            assert s[k + 1] == y;
          }
        }
        ConsSorted(s[0], Insert(x, t, key), key);
      }
    }
  }

  /** SortBy returns a permutation of its input in nondecreasing key order. */
  lemma {:induction false} SortByProperties<T>(s: seq<T>, key: T -> string)
    ensures multiset(SortBy(s, key)) == multiset(s)
    ensures SortedBy(SortBy(s, key), key)
    decreases |s|
  {
    if |s| > 0 {
      SortByProperties(s[1..], key);
      InsertProperties(s[0], SortBy(s[1..], key), key);
      assert s == [s[0]] + s[1..];
    }
  }

  lemma {:induction false} InsertPermutation<T>(x: T, s: seq<T>, key: T -> string)
    ensures multiset(Insert(x, s, key)) == multiset(s) + multiset{x}
    decreases |s|
  {
    if |s| > 0 && !LessEq(key(x), key(s[0])) {
      InsertPermutation(x, s[1..], key);
      assert s == [s[0]] + s[1..];
    }
  }

  lemma {:induction false} InsertKeepsDistinctKeys<T>(x: T, s: seq<T>, key: T -> string)
    requires DistinctKeys(s, key) && forall y :: y in s ==> key(y) != key(x)
    ensures DistinctKeys(Insert(x, s, key), key)
    decreases |s|
  {
    if |s| == 0 {
      assert DistinctKeys([x], key);
    } else if LessEq(key(x), key(s[0])) {
      ConsDistinct(x, s, key);
    } else {
      var t := s[1..];
      assert forall y :: y in t ==> y in s;
      assert DistinctKeys(t, key);
      InsertKeepsDistinctKeys(x, t, key);
      InsertElems(x, t, key);
      forall y | y in Insert(x, t, key) ensures key(s[0]) != key(y) {
        if y != x {
          var k :| 0 <= k < |t| && t[k] == y;
          assert s[k + 1] == y;
        }
      }
      ConsDistinct(s[0], Insert(x, t, key), key);
    }
  }

  /** Sorting never makes two elements share a key. */
  lemma {:induction false} SortByKeepsDistinctKeys<T>(s: seq<T>, key: T -> string)
    requires DistinctKeys(s, key)
    ensures DistinctKeys(SortBy(s, key), key)
    decreases |s|
  {
    if |s| > 0 {
      var t := s[1..];
      assert DistinctKeys(t, key);
      SortByKeepsDistinctKeys(t, key);
      SortByProperties(t, key);
      forall y | y in SortBy(t, key) ensures key(y) != key(s[0]) {
        assert y in multiset(SortBy(t, key));
        assert y in multiset(t);
        var k :| 0 <= k < |t| && t[k] == y;
        assert s[k + 1] == y;
      }
      InsertKeepsDistinctKeys(s[0], SortBy(t, key), key);
    }
  }
}
