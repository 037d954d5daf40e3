/**
 * String helpers shared by the card and the menu service: decimal rendering
 * of naturals (JavaScript's `n.toString()` for non-negative integers), a
 * strict decimal parser that is its exact inverse and a lenient one for
 * zero-padded fields, `padStart`, and splitting a string at
 * the first occurrence of a character (`s.split(c)[0]` and what follows).
 */
module Text {
  import opened Wrappers

  predicate IsDigit(c: char) {
    '0' <= c <= '9'
  }

  predicate AllDigits(s: string) {
    forall k :: 0 <= k < |s| ==> IsDigit(s[k])
  }

  function DigitChar(d: nat): (c: char)
    requires d < 10
    ensures IsDigit(c)
  {
    (48 + d) as char
  }

  function DigitValue(c: char): (d: nat)
    requires IsDigit(c)
    ensures d < 10
  {
    (c as int) - 48
  }

  /** `n.toString()`: decimal digits, most significant first, no padding. */
  function NatToString(n: nat): (r: string)
    ensures |r| >= 1 && AllDigits(r)
    ensures r[0] == '0' ==> n == 0
    ensures n < 10 <==> |r| == 1
  {
    if n < 10 then [DigitChar(n)] else NatToString(n / 10) + [DigitChar(n % 10)]
  }

  /** The value of a string of decimal digits, most significant first. */
  function DigitsValue(s: string): nat
    requires AllDigits(s)
  {
    if s == [] then 0 else DigitsValue(s[..|s| - 1]) * 10 + DigitValue(s[|s| - 1])
  }

  /** A decimal numeral as `toString()` writes one: digits only, no leading zero unless it is `0` itself. */
  predicate Canonical(s: string) {
    |s| >= 1 && AllDigits(s) && (s[0] == '0' ==> |s| == 1)
  }

  /** A lenient decimal reader for zero-padded fields: `Some` exactly for non-empty strings of digits. */
  function ParseDigits(s: string): (r: Option<nat>)
    ensures r.Some? <==> s != [] && AllDigits(s)
  {
    if s != [] && AllDigits(s) then Some(DigitsValue(s)) else None
  }

  /** The strict decimal reader: accepts only what `NatToString` writes, and reads it back. */
  function ParseNat(s: string): (r: Option<nat>)
    ensures r.Some? ==> s == NatToString(r.value)
    ensures |s| >= 2 && s[0] == '0' ==> r.None?
  {
    if Canonical(s) then (CanonicalIsNatToString(s); Some(DigitsValue(s))) else None
  }

  /** The strict reader reads a canonical numeral as its value. */
  lemma ParseNatOfCanonical(s: string)
    requires Canonical(s)
    ensures ParseNat(s) == Some(DigitsValue(s))
  {
  }

  /** A numeral whose first digit is not `0` has a positive value. */
  lemma {:induction false} LeadingDigitPositive(s: string)
    requires |s| >= 1 && AllDigits(s) && s[0] != '0'
    ensures DigitsValue(s) >= 1
  {
    if |s| > 1 {
      var p := s[..|s| - 1];
      assert p[0] == s[0];
      LeadingDigitPositive(p);
    }
  }

  /** A canonical numeral is the decimal rendering of its own value. */
  lemma {:induction false} CanonicalIsNatToString(s: string)
    requires Canonical(s)
    ensures s == NatToString(DigitsValue(s))
  {
    var n := DigitsValue(s);
    var p, d := s[..|s| - 1], s[|s| - 1];
    assert s == p + [d];
    if |s| == 1 {
      assert p == [];
      assert n == DigitValue(d);
      assert DigitChar(n) == d;
    } else {
      assert p[0] == s[0];
      CanonicalIsNatToString(p);
      LeadingDigitPositive(p);
      assert n == DigitsValue(p) * 10 + DigitValue(d);
      assert n / 10 == DigitsValue(p) && n % 10 == DigitValue(d);
      assert DigitChar(n % 10) == d;
    }
  }

  lemma {:induction false} DigitsValueOfNatToString(n: nat)
    ensures DigitsValue(NatToString(n)) == n
  {
    if n >= 10 {
      var p := NatToString(n / 10);
      DigitsValueOfNatToString(n / 10);
      assert (p + [DigitChar(n % 10)])[..|p|] == p;
    }
  }

  /** Parsing the decimal rendering of a natural gives the natural back. */
  lemma NatToStringRoundTrip(n: nat)
    ensures ParseNat(NatToString(n)) == Some(n)
  {
    DigitsValueOfNatToString(n);
  }

  /** The strict reader accepts a text exactly when it is the rendering of the value it reads. */
  lemma ParseNatExact(s: string, n: nat)
    ensures ParseNat(s) == Some(n) <==> s == NatToString(n)
  {
    NatToStringRoundTrip(n);
  }

  /** Two naturals with the same rendering are equal. */
  lemma NatToStringInjective(a: nat, b: nat)
    requires NatToString(a) == NatToString(b)
    ensures a == b
  {
    NatToStringRoundTrip(a);
    NatToStringRoundTrip(b);
  }

  /** `s.padStart(n, c)`: `s` preceded by enough copies of `c` to reach length `n`. */
  function PadStart(s: string, n: nat, c: char): (r: string)
    ensures |r| == if |s| >= n then |s| else n
    ensures r[|r| - |s|..] == s
    ensures forall k :: 0 <= k < |r| - |s| ==> r[k] == c
  {
    if |s| >= n then s else seq(n - |s|, _ => c) + s
  }

  /** `s.split(c)[0]`: the part of `s` before the first `c`, or all of `s`. */
  function Before(s: string, c: char): (r: string)
    ensures |r| <= |s| && r == s[..|r|]
    ensures c !in r
    ensures |r| < |s| ==> s[|r|] == c
  {
    if s == [] || s[0] == c then [] else [s[0]] + Before(s[1..], c)
  }

  /** What follows the first `c` in `s`, or the empty string if there is none. */
  function After(s: string, c: char): (r: string)
    ensures |Before(s, c)| < |s| ==> r == s[|Before(s, c)| + 1..]
    ensures |Before(s, c)| == |s| ==> r == []
  {
    if s == [] then [] else if s[0] == c then s[1..] else After(s[1..], c)
  }

  /** Splitting `a + [c] + b` at its first `c` gives back `a` and `b` when `a` has no `c`. */
  lemma SplitAtFirst(a: string, c: char, b: string)
    requires c !in a
    ensures Before(a + [c] + b, c) == a
    ensures After(a + [c] + b, c) == b
  {
    var s := a + [c] + b;
    assert s[..|a|] == a;
    assert s[|a|] == c;
  }

  /** A string holding `c` is what comes before its first `c`, that `c`, and what follows it. */
  lemma SplitBack(s: string, c: char)
    requires |Before(s, c)| < |s|
    ensures s == Before(s, c) + [c] + After(s, c)
  {
    var k := |Before(s, c)|;
    assert s == s[..k] + [s[k]] + s[k + 1..];
  }

  /** A string without `c` is its own prefix before `c`. */
  lemma BeforeWithout(s: string, c: char)
    requires c !in s
    ensures Before(s, c) == s && After(s, c) == []
  {
  }

  lemma DigitsHaveNo(s: string, c: char)
    requires AllDigits(s) && !IsDigit(c)
    ensures c !in s
  {
  }

  /** `s` begins with `p` (`s.startsWith(p)`). */
  predicate StartsWith(s: string, p: string) {
    |p| <= |s| && s[..|p|] == p
  }
}
