/**
 The two Python built-ins that the connection filter relies on:
 `str(n)` for an integer `n` (its decimal text, with a leading `-` when
 negative) and the substring test `sub in s` on strings.
 Each comes with an independent partner: `str` with a parser that undoes it,
 `in` with a declarative "occurs at some index" predicate.
 */
module Builtins {

  predicate IsDigit(c: char) {
    '0' <= c <= '9'
  }

  function DigitChar(d: nat): (c: char)
    requires d < 10
    ensures IsDigit(c)
  {
    ('0' as int + d) as char
  }

  function DigitValue(c: char): nat {
    if IsDigit(c) then c as int - '0' as int else 0
  }

  /** Decimal digits of a natural number, most significant first, no leading zero. */
  function Digits(n: nat): (r: string)
    ensures |r| >= 1
    ensures forall i :: 0 <= i < |r| ==> IsDigit(r[i])
    ensures r[0] == '0' ==> n == 0
  {
    if n < 10 then [DigitChar(n)] else Digits(n / 10) + [DigitChar(n % 10)]
  }

  /** Digits only, at least one, and no leading zero unless the text is `0`. */
  predicate CanonicalNat(t: string) {
    |t| >= 1 && (forall i :: 0 <= i < |t| ==> IsDigit(t[i])) && (t[0] == '0' ==> |t| == 1)
  }

  /** The texts Python's `str` writes for integers: canonical digits, or `-` before non-zero canonical digits. */
  predicate Canonical(s: string) {
    CanonicalNat(s) || (|s| >= 2 && s[0] == '-' && s[1] != '0' && CanonicalNat(s[1..]))
  }

  /** Python's `str(n)` for an `int`. */
  function Decimal(n: int): (r: string)
    ensures r != []
    ensures r[0] == '-' <==> n < 0
    ensures |r| > (if n < 0 then 1 else 0)
    ensures forall i :: (if n < 0 then 1 else 0) <= i < |r| ==> IsDigit(r[i])
    ensures r[if n < 0 then 1 else 0] == '0' ==> n == 0
    ensures Canonical(r)
    ensures ':' !in r
  {
    if n < 0 then "-" + Digits(-n) else Digits(n)
  }

  /** Reads a run of decimal digits back as a natural number. */
  function ParseNat(s: string): nat {
    if |s| == 0 then 0 else ParseNat(s[..|s| - 1]) * 10 + DigitValue(s[|s| - 1])
  }

  /** Reads an optionally negative decimal number, the inverse of `Decimal`. */
  function ParseDecimal(s: string): int {
    if |s| > 0 && s[0] == '-' then -(ParseNat(s[1..]) as int) else ParseNat(s)
  }

  lemma {:induction false} ParseDigits(n: nat)
    ensures ParseNat(Digits(n)) == n
  {
    if n >= 10 {
      var d := Digits(n / 10);
      assert (d + [DigitChar(n % 10)])[..|d|] == d;
      ParseDigits(n / 10);
    }
  }

  /** `str` loses nothing: its text reads back as the same integer. */
  lemma DecimalRoundTrip(n: int)
    ensures ParseDecimal(Decimal(n)) == n
  {
    if n < 0 {
      assert Decimal(n)[1..] == Digits(-n);
      ParseDigits(-n);
    } else {
      ParseDigits(n);
    }
  }

  /** A canonical digit text with a non-zero first digit reads as a positive number. */
  lemma {:induction false} ParseNatPositive(t: string)
    requires CanonicalNat(t) && t[0] != '0'
    ensures ParseNat(t) >= 1
  {
    if |t| > 1 {
      ParseNatPositive(t[..|t| - 1]);
    }
  }

  /** The only canonical digit text that reads as `ParseNat(t)` is `t` itself. */
  lemma {:induction false} DigitsUnique(t: string)
    requires CanonicalNat(t)
    ensures Digits(ParseNat(t)) == t
  {
    if |t| > 1 {
      var front := t[..|t| - 1];
      assert CanonicalNat(front);
      ParseNatPositive(front);
      DigitsUnique(front);
      var m := ParseNat(t);
      assert m / 10 == ParseNat(front) && m % 10 == DigitValue(t[|t| - 1]);
      assert t == front + [t[|t| - 1]];
    }
  }

  /** `str(n)` is the one canonical text that reads back as `n`. */
  lemma DecimalUnique(s: string, n: int)
    requires Canonical(s) && ParseDecimal(s) == n
    ensures s == Decimal(n)
  {
    if CanonicalNat(s) {
      DigitsUnique(s);
    } else {
      DigitsUnique(s[1..]);
      ParseNatPositive(s[1..]);
      assert s == "-" + s[1..];
    }
  }

  /** Distinct integers have distinct decimal texts. */
  lemma DecimalInjective(a: int, b: int)
    requires Decimal(a) == Decimal(b)
    ensures a == b
  {
    DecimalRoundTrip(a);
    DecimalRoundTrip(b);
  }

  /** `sub` sits in `s` starting at index `i`. */
  ghost predicate OccursAt(sub: string, s: string, i: int) {
    0 <= i && i + |sub| <= |s| && s[i..i + |sub|] == sub
  }

  /** The meaning of Python's `sub in s`: `sub` is a contiguous piece of `s`. */
  ghost predicate Occurs(sub: string, s: string) {
    exists i :: OccursAt(sub, s, i)
  }

  /** Python's `sub in s` for strings, by scanning the start positions. */
  function Contains(sub: string, s: string): (r: bool)
    ensures r <==> Occurs(sub, s)
    decreases |s|
  {
    if |sub| > |s| then
      false
    else if s[..|sub|] == sub then
      assert OccursAt(sub, s, 0);
      true
    else if |s| == 0 then
      false
    else
      var r := Contains(sub, s[1..]);
      ShiftOccurrence(sub, s);
      r
  }

  /** When `sub` is not a prefix of `s`, it occurs in `s` exactly when it occurs in `s[1..]`. */
  lemma ShiftOccurrence(sub: string, s: string)
    requires |s| > 0
    requires |sub| <= |s| && s[..|sub|] != sub
    ensures Occurs(sub, s) <==> Occurs(sub, s[1..])
  {
    if Occurs(sub, s) {
      var i :| OccursAt(sub, s, i);
      assert i != 0;
      assert s[1..][i - 1..i - 1 + |sub|] == s[i..i + |sub|];
      assert OccursAt(sub, s[1..], i - 1);
    }
    if Occurs(sub, s[1..]) {
      var j :| OccursAt(sub, s[1..], j);
      assert s[j + 1..j + 1 + |sub|] == s[1..][j..j + |sub|];
      assert OccursAt(sub, s, j + 1);
    }
  }
}
