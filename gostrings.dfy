/** The parts of Go's `strings` and `strconv` packages that the exercises
    rely on, on rune sequences: decimal digits, `strconv.Itoa`,
    `strconv.Atoi` (base 10, 64-bit range), `strings.ToLower`,
    `strings.Contains`, `strings.Split` and its inverse `strings.Join`. */
module GoStrings {
  import opened Common

  const MinInt64: int := -0x8000_0000_0000_0000
  const MaxInt64: int := 0x7fff_ffff_ffff_ffff

  // ---------------------------------------------------------------------
  // Decimal digits
  // ---------------------------------------------------------------------

  predicate IsDigit(c: char) {
    '0' <= c <= '9'
  }

  predicate AllDigits(s: string) {
    forall i :: 0 <= i < |s| ==> IsDigit(s[i])
  }

  function DigitValue(c: char): (d: nat)
    requires IsDigit(c)
    ensures d < 10
  {
    (c as int) - ('0' as int)
  }

  function DigitChar(d: nat): (c: char)
    requires d < 10
    ensures IsDigit(c) && DigitValue(c) == d
  {
    (('0' as int) + d) as char
  }

  /** The value of a string of decimal digits, most significant first. */
  function DigitsValue(s: string): nat
    requires AllDigits(s)
    decreases |s|
  {
    if |s| == 0 then 0 else DigitsValue(s[..|s| - 1]) * 10 + DigitValue(s[|s| - 1])
  }

  /** The shortest decimal representation of a natural number. */
  function NatDigits(n: nat): (s: string)
    ensures |s| >= 1 && AllDigits(s)
    ensures n > 0 ==> s[0] != '0'
    decreases n
  {
    if n < 10 then [DigitChar(n)] else NatDigits(n / 10) + [DigitChar(n % 10)]
  }

  lemma {:induction false} NatDigitsValue(n: nat)
    ensures DigitsValue(NatDigits(n)) == n
    decreases n
  {
    if n >= 10 {
      NatDigitsValue(n / 10);
      var s := NatDigits(n);
      assert s[..|s| - 1] == NatDigits(n / 10);
    }
  }

  /** Leading zeros do not change the value of a digit string. */
  lemma {:induction false} LeadingZerosValue(k: nat, s: string)
    requires AllDigits(s)
    ensures AllDigits(Repeat('0', k) + s)
    ensures DigitsValue(Repeat('0', k) + s) == DigitsValue(s)
    decreases |s|
  {
    var z := Repeat('0', k) + s;
    assert AllDigits(z);
    if |s| == 0 {
      assert z == Repeat('0', k);
      ZerosValue(k);
    } else {
      assert z[..|z| - 1] == Repeat('0', k) + s[..|s| - 1];
      LeadingZerosValue(k, s[..|s| - 1]);
    }
  }

  lemma {:induction false} ZerosValue(k: nat)
    ensures AllDigits(Repeat('0', k)) && DigitsValue(Repeat('0', k)) == 0
    decreases k
  {
    if k > 0 {
      assert Repeat('0', k)[..k - 1] == Repeat('0', k - 1);
      ZerosValue(k - 1);
    }
  }

  /** `n` copies of `c`. */
  function Repeat(c: char, n: nat): (r: string)
    ensures |r| == n && forall i :: 0 <= i < n ==> r[i] == c
  {
    seq(n, _ => c)
  }

  // ---------------------------------------------------------------------
  // strconv.Itoa and strconv.Atoi
  // ---------------------------------------------------------------------

  function Itoa(n: int): string {
    if n < 0 then "-" + NatDigits(-n) else NatDigits(n)
  }

  /** strconv.Atoi: an optional sign followed by at least one ASCII digit,
      and the value must fit in 64 bits; anything else is an error (None). */
  function Atoi(s: string): (r: Option<int>)
    ensures r.Some? ==> MinInt64 <= r.value <= MaxInt64
    ensures r.Some? ==> |s| > 0 && (IsDigit(s[0]) || s[0] == '-' || s[0] == '+')
  {
    if |s| == 0 then None
    else
      var body := if s[0] == '-' || s[0] == '+' then s[1..] else s;
      if |body| == 0 || !AllDigits(body) then None
      else
        var v: int := if s[0] == '-' then -(DigitsValue(body) as int) else DigitsValue(body);
        if MinInt64 <= v <= MaxInt64 then Some(v) else None
  }

  /** Atoi undoes Itoa on every 64-bit integer. */
  lemma AtoiItoa(n: int)
    requires MinInt64 <= n <= MaxInt64
    ensures Atoi(Itoa(n)) == Some(n)
  {
    if n < 0 {
      NegativeAtoi(NatDigits(-n));
      NatDigitsValue(-n);
    } else {
      UnsignedAtoi(NatDigits(n));
      NatDigitsValue(n);
    }
  }

  /** Atoi on digits alone reads their value, when it fits. */
  lemma UnsignedAtoi(d: string)
    requires |d| > 0 && AllDigits(d)
    ensures Atoi(d) == if DigitsValue(d) <= MaxInt64 then Some(DigitsValue(d)) else None
  {
    assert IsDigit(d[0]);
  }

  /** Atoi on a minus sign and digits reads the negated value, when it fits. */
  lemma NegativeAtoi(d: string)
    requires |d| > 0 && AllDigits(d)
    ensures var v: int := -(DigitsValue(d) as int);
      Atoi("-" + d) == if MinInt64 <= v then Some(v) else None
  {
    var s := "-" + d;
    assert s[0] == '-' && s[1..] == d;
  }

  /** On a one-rune string Atoi succeeds exactly on an ASCII digit. */
  lemma AtoiRune(c: char)
    ensures Atoi([c]) == if IsDigit(c) then Some(DigitValue(c)) else None
  {
    if IsDigit(c) {
      assert [c][..0] == [];
      assert DigitsValue([c]) == DigitsValue([c][..0]) * 10 + DigitValue(c);
    }
  }

  // ---------------------------------------------------------------------
  // strings.ToLower, rune by rune. Case mapping is modelled for ASCII and
  // the Cyrillic block (U+0400..U+042F), the alphabets of the exercises.
  // ---------------------------------------------------------------------

  function LowerRune(c: char): (r: char)
    ensures !('A' <= r <= 'Z')
  {
    if 'A' <= c <= 'Z' then ((c as int) + 32) as char
    else if '\U{0410}' <= c <= '\U{042F}' then ((c as int) + 32) as char
    else if '\U{0400}' <= c <= '\U{040F}' then ((c as int) + 80) as char
    else c
  }

  function ToLower(s: string): (r: string)
    ensures |r| == |s| && forall i :: 0 <= i < |s| ==> r[i] == LowerRune(s[i])
    decreases |s|
  {
    if |s| == 0 then "" else [LowerRune(s[0])] + ToLower(s[1..])
  }

  lemma ToLowerIdempotent(s: string)
    ensures ToLower(ToLower(s)) == ToLower(s)
  {
  }

  // ---------------------------------------------------------------------
  // strings.Contains and the first occurrence used by strings.Split
  // ---------------------------------------------------------------------

  predicate IsPrefix(p: string, s: string) {
    |p| <= |s| && s[..|p|] == p
  }

  predicate Contains(s: string, p: string)
    decreases |s|
  {
    IsPrefix(p, s) || (|s| > 0 && Contains(s[1..], p))
  }

  /** `p` occurs in `s` at position `i`. */
  predicate OccursAt(s: string, p: string, i: int) {
    0 <= i <= |s| - |p| && s[i..i + |p|] == p
  }

  /** Contains means: some window of `s` equals `p`. */
  lemma {:induction false} ContainsAt(s: string, p: string)
    ensures Contains(s, p) <==> exists i :: OccursAt(s, p, i)
    decreases |s|
  {
    if IsPrefix(p, s) {
      assert OccursAt(s, p, 0);
    }
    if |s| > 0 {
      ContainsAt(s[1..], p);
      if exists i :: OccursAt(s, p, i) {
        var i :| OccursAt(s, p, i);
        if i > 0 {
          assert OccursAt(s[1..], p, i - 1);
        }
      }
      if Contains(s[1..], p) {
        var i :| OccursAt(s[1..], p, i);
        assert OccursAt(s, p, i + 1);
      }
    }
  }

  /** The index of the first occurrence of `p` in `s`, or -1. */
  function IndexOf(s: string, p: string): (i: int)
    ensures i >= -1
    ensures i >= 0 ==> OccursAt(s, p, i)
    ensures i >= 0 <==> Contains(s, p)
    decreases |s|
  {
    if IsPrefix(p, s) then 0
    else if |s| == 0 then -1
    else
      var j := IndexOf(s[1..], p);
      if j < 0 then -1
      else assert s[j + 1..j + 1 + |p|] == s[1..][j..j + |p|]; j + 1
  }

  /** A window containing a rune: every rune of `p` occurs in any `s` that contains `p`. */
  lemma ContainsRune(s: string, p: string, k: nat)
    requires Contains(s, p) && k < |p|
    ensures p[k] in s
  {
    ContainsAt(s, p);
    var i :| OccursAt(s, p, i);
    assert s[i + k] == p[k];
  }

  // ---------------------------------------------------------------------
  // strings.Split and strings.Join
  // ---------------------------------------------------------------------

  /** strings.Split: with an empty separator the string is cut into single
      runes; otherwise it is cut at every non-overlapping occurrence of the
      separator, scanning from the left. */
  function Split(s: string, sep: string): (r: seq<string>)
    ensures |sep| > 0 ==> |r| >= 1
    ensures |sep| == 0 ==> |r| == |s|
  {
    if |sep| == 0 then seq(|s|, i requires 0 <= i < |s| => [s[i]])
    else SplitOn(s, sep)
  }

  function SplitOn(s: string, sep: string): (r: seq<string>)
    requires |sep| > 0
    ensures |r| >= 1
    decreases |s|
  {
    var i := IndexOf(s, sep);
    if i < 0 then [s] else [s[..i]] + SplitOn(s[i + |sep|..], sep)
  }

  function Join(parts: seq<string>, sep: string): string
    decreases |parts|
  {
    if |parts| == 0 then ""
    else if |parts| == 1 then parts[0]
    else parts[0] + sep + Join(parts[1..], sep)
  }

  /** Joining the pieces of a split with the same separator gives back
      the original string. */
  lemma JoinSplit(s: string, sep: string)
    ensures Join(Split(s, sep), sep) == s
  {
    if |sep| == 0 {
      JoinRunes(s);
    } else {
      JoinSplitOn(s, sep);
    }
  }

  lemma {:induction false} JoinSplitOn(s: string, sep: string)
    requires |sep| > 0
    ensures Join(SplitOn(s, sep), sep) == s
    decreases |s|
  {
    var i := IndexOf(s, sep);
    if i >= 0 {
      var rest := s[i + |sep|..];
      var tail := SplitOn(rest, sep);
      JoinSplitOn(rest, sep);
      var parts := [s[..i]] + tail;
      assert SplitOn(s, sep) == parts;
      assert |parts| > 1 && parts[1..] == tail;
      assert Join(parts, sep) == s[..i] + sep + Join(tail, sep);
      assert s == s[..i] + s[i..i + |sep|] + rest;
    }
  }

  lemma {:induction false} JoinRunes(s: string)
    ensures Join(Split(s, ""), "") == s
    decreases |s|
  {
    var parts := Split(s, "");
    if |s| > 1 {
      JoinRunes(s[1..]);
      assert parts[1..] == Split(s[1..], "");
      assert s == [s[0]] + s[1..];
    }
  }

  /** Without an occurrence of a non-empty separator the split is the whole string. */
  lemma SplitWithoutSeparator(s: string, sep: string)
    requires |sep| > 0 && !Contains(s, sep)
    ensures Split(s, sep) == [s]
  {
  }
}
