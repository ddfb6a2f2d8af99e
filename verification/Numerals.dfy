/** Numerals: digits of a number in any base, and the way back. */
module Numerals {
  import opened Bytes
  import Counting

  /** The character of a digit below 16. */
  function DigitChar(d: nat, upper: bool): byte
    requires d < 16
  {
    if d < 10 then 48 + d else (if upper then 55 else 87) + d
  }

  /** The digit a character stands for, whatever its case. */
  function DigitOf(ch: byte): (d: nat)
  {
    if 48 <= ch < 58 then ch - 48 else if 65 <= ch < 71 then ch - 55 else if 97 <= ch < 103 then ch - 87 else 0
  }

  lemma DigitRoundTrip(d: nat, upper: bool)
    requires d < 16
    ensures DigitOf(DigitChar(d, upper)) == d
  {
  }

  /** The value of a numeral, most significant digit first. */
  function Value(s: seq<byte>, base: nat): nat {
    if s == [] then 0 else Value(s[..|s| - 1], base) * base + DigitOf(s[|s| - 1])
  }

  /** The value of the same digits in the order the conversion produces them, least significant first. */
  function ReversedValue(s: seq<byte>, base: nat): nat {
    if s == [] then 0 else DigitOf(s[0]) + base * ReversedValue(s[1..], base)
  }

  function Reversed(s: seq<byte>): (r: seq<byte>)
    ensures |r| == |s| && forall k :: 0 <= k < |s| ==> r[k] == s[|s| - 1 - k]
  {
    seq(|s|, k requires 0 <= k < |s| => s[|s| - 1 - k])
  }

  lemma {:induction false} ReversedSame(s: seq<byte>, base: nat)
    ensures Value(Reversed(s), base) == ReversedValue(s, base)
    decreases |s|
  {
    if s != [] {
      var r := Reversed(s);
      assert r[..|s| - 1] == Reversed(s[1..]);
      ReversedSame(s[1..], base);
    }
  }

  function Power(base: nat, n: nat): nat {
    if n == 0 then 1 else base * Power(base, n - 1)
  }

  lemma {:induction false} ReversedConcat(s: seq<byte>, d: byte, base: nat)
    ensures ReversedValue(s + [d], base) == ReversedValue(s, base) + Power(base, |s|) * DigitOf(d)
    decreases |s|
  {
    if s == [] {
      assert ([d])[1..] == [];
      assert [] + [d] == [d];
      assert ReversedValue([d], base) == DigitOf(d) + base * ReversedValue([], base);
    } else {
      assert (s + [d])[1..] == s[1..] + [d] && (s + [d])[0] == s[0];
      ReversedConcat(s[1..], d, base);
      Distribute(base, ReversedValue(s[1..], base), Power(base, |s| - 1), DigitOf(d));
    }
  }

  lemma Distribute(b: nat, r: nat, p: nat, q: nat)
    ensures b * (r + p * q) == b * r + b * p * q
  {
    assert b * (p * q) == b * p * q;
  }

  lemma {:induction false} PowerOfTwo(base: nat, n: nat)
    requires base >= 2
    ensures Power(base, n) >= Power(2, n) > 0
    decreases n
  {
    if n > 0 {
      PowerOfTwo(base, n - 1);
      var p, q := Power(base, n - 1), Power(2, n - 1);
      assert base * p >= 2 * p;
    }
  }

  lemma SixtyFour()
    ensures Power(2, 64) == TWO_64
  {
    assert Power(2, 1) == 2 * Power(2, 0);
    PowerAdds(2, 1, 1);
    PowerAdds(2, 2, 2);
    PowerAdds(2, 4, 4);
    PowerAdds(2, 8, 8);
    PowerAdds(2, 16, 16);
    PowerAdds(2, 32, 32);
  }

  lemma {:induction false} PowerAdds(base: nat, m: nat, n: nat)
    ensures Power(base, m + n) == Power(base, m) * Power(base, n)
    decreases m
  {
    if m > 0 {
      PowerAdds(base, m - 1, n);
      var a, b := Power(base, m - 1), Power(base, n);
      assert base * (a * b) == (base * a) * b;
    } else {
      assert Power(base, 0) == 1;
    }
  }

  /** One digit written: with `left` still to convert and `s` already written, the value is accounted for. */
  lemma DigitStep(s: seq<byte>, left: nat, value: nat, base: nat, upper: bool)
    requires 2 <= base <= 16 && left > 0 && ReversedValue(s, base) + Power(base, |s|) * left == value
    ensures var t := s + [DigitChar(left % base, upper)];
            && ReversedValue(t, base) + Power(base, |t|) * (left / base) == value
            && (left / base == 0 ==> DigitOf(t[|t| - 1]) != 0)
  {
    var d, q, p := left % base, left / base, Power(base, |s|);
    var c := DigitChar(d, upper);
    DigitRoundTrip(d, upper);
    ReversedConcat(s, c, base);
    SplitLeft(left, base, p);
    hide ReversedValue, DigitChar, DigitOf;
    assert Power(base, |s + [c]|) == base * p;
  }

  lemma SplitLeft(left: nat, base: nat, p: nat)
    requires base > 0
    ensures p * left == p * (left % base) + base * p * (left / base)
    ensures left > 0 && left / base == 0 ==> left % base != 0
  {
    var q, d := left / base, left % base;
    assert left == q * base + d;
    assert p * (q * base) == base * p * q;
    assert p * (q * base + d) == p * (q * base) + p * d;
  }

  /** While something is left to convert, fewer than 64 digits are written. */
  lemma RoomLeft(n: nat, left: nat, value: nat, base: nat, low: nat)
    requires base >= 2 && left > 0 && value < TWO_64 && low + Power(base, n) * left == value
    ensures n < 64
  {
    if n >= 64 {
      PowerOfTwo(base, n);
      PowerGrows(64, n);
      SixtyFour();
      AtLeast(Power(base, n), left);
    }
  }

  lemma AtLeast(p: nat, left: nat)
    requires left > 0
    ensures p * left >= p
  {
  }

  lemma {:induction false} PowerGrows(m: nat, n: nat)
    requires m <= n
    ensures Power(2, n) >= Power(2, m)
    decreases n
  {
    if m < n {
      PowerGrows(m, n - 1);
    }
  }

  ghost predicate AllDigits(s: seq<byte>, base: nat, upper: bool) {
    forall k :: 0 <= k < |s| ==> IsDigit(s[k], base, upper)
  }

  ghost predicate IsDigit(ch: byte, base: nat, upper: bool) {
    exists d :: 0 <= d < base && d < 16 && ch == DigitChar(d, upper)
  }

  /** The numeral of `value`: digits of the base, nothing superfluous in front, and the value comes back. */
  ghost predicate Numeral(s: seq<byte>, value: nat, base: nat, upper: bool) {
    0 < |s| && Value(s, base) == value && (|s| > 1 ==> DigitOf(s[0]) != 0) && AllDigits(s, base, upper)
  }

  lemma NumeralAppend(t: seq<byte>, q: nat, d: nat, base: nat, upper: bool)
    requires 2 <= base <= 16 && d < base && Numeral(t, q, base, upper) && DigitOf(t[0]) != 0
    ensures Numeral(t + [DigitChar(d, upper)], q * base + d, base, upper)
  {
    var c := DigitChar(d, upper);
    var s := t + [c];
    DigitRoundTrip(d, upper);
    assert IsDigit(c, base, upper);
    assert s[..|s| - 1] == t && s[|s| - 1] == c;
    hide DigitChar, DigitOf, IsDigit;
  }

  lemma NumeralDigit(d: nat, base: nat, upper: bool)
    requires 2 <= base <= 16 && d < base
    ensures Numeral([DigitChar(d, upper)], d, base, upper)
  {
    var c := DigitChar(d, upper);
    DigitRoundTrip(d, upper);
    assert IsDigit(c, base, upper);
    assert [c][..0] == [];
    assert Value([c], base) == Value([], base) * base + DigitOf(c);
  }

  /** The conversion so far: `left` is still to convert. */
  ghost predicate Converted(s: seq<byte>, left: nat, value: nat, base: nat, upper: bool) {
    && ReversedValue(s, base) + Power(base, |s|) * left == value && AllDigits(s, base, upper)
    && (left == 0 ==> s != [] && DigitOf(s[|s| - 1]) != 0)
  }

  lemma ConvertStep(s: seq<byte>, left: nat, value: nat, base: nat, upper: bool)
    requires Converted(s, left, value, base, upper) && left > 0 && 2 <= base <= 16 && value < TWO_64
    ensures |s| < 64 && Converted(s + [DigitChar(left % base, upper)], left / base, value, base, upper)
  {
    RoomLeft(|s|, left, value, base, ReversedValue(s, base));
    DigitStep(s, left, value, base, upper);
    var c := DigitChar(left % base, upper);
    assert IsDigit(c, base, upper);
    hide DigitChar, DigitOf, IsDigit, ReversedValue, Power;
  }

  /** There is only one. */
  lemma {:induction false} NumeralUnique(s: seq<byte>, t: seq<byte>, value: nat, base: nat, upper: bool)
    requires 2 <= base <= 16 && Numeral(s, value, base, upper) && Numeral(t, value, base, upper)
    ensures s == t
    decreases |s|
  {
    var a, b := s[..|s| - 1], t[..|t| - 1];
    LastDigit(s, value, base, upper);
    LastDigit(t, value, base, upper);
    if a == [] {
      if b != [] { Leading(b, base, upper); }
    } else if b == [] {
      Leading(a, base, upper);
    } else {
      NumeralUnique(a, b, value / base, base, upper);
    }
  }

  /** The last digit is the remainder, and the rest is the numeral of the quotient. */
  lemma LastDigit(s: seq<byte>, value: nat, base: nat, upper: bool)
    requires 2 <= base <= 16 && Numeral(s, value, base, upper)
    ensures s[|s| - 1] == DigitChar(value % base, upper)
    ensures |s| > 1 ==> Numeral(s[..|s| - 1], value / base, base, upper)
    ensures Value(s[..|s| - 1], base) == value / base
  {
    var last := s[|s| - 1];
    assert IsDigit(last, base, upper);
    var d :| 0 <= d < base && d < 16 && last == DigitChar(d, upper);
    DigitRoundTrip(d, upper);
    var q := Value(s[..|s| - 1], base);
    assert value == q * base + d;
    QuotientIs(value, base, q, d);
  }

  lemma QuotientIs(x: nat, b: nat, q: nat, r: nat)
    requires x == q * b + r && r < b
    ensures x / b == q && x % b == r
  {
    var p := x / b;
    assert x == p * b + x % b;
    Counting.MulLe(Min(p + 1, q), q, b);
    Counting.MulLe(Min(q + 1, p), p, b);
  }

  /** A numeral that does not start with zero is not zero. */
  lemma {:induction false} Leading(s: seq<byte>, base: nat, upper: bool)
    requires 2 <= base && s != [] && DigitOf(s[0]) != 0
    ensures Value(s, base) > 0
    decreases |s|
  {
    if |s| > 1 {
      Leading(s[..|s| - 1], base, upper);
      var v := Value(s[..|s| - 1], base);
      assert v * base > 0;
    } else {
      assert s[..0] == [];
    }
  }
}
