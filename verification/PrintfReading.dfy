/** Reading formatted output: a reader that knows nothing of widths, precisions and flags gets the argument back. */
module PrintfReading {
  import opened Bytes
  import opened Numerals
  import opened Printf

  // ---------- the reader ----------

  function SkipSpaces(s: seq<byte>): seq<byte> {
    if s != [] && s[0] == SPACE then SkipSpaces(s[1..]) else s
  }

  predicate IsDigitOf(ch: byte, base: nat) {
    (48 <= ch < 58 || 65 <= ch < 71 || 97 <= ch < 103) && DigitOf(ch) < base
  }

  /** The digits `s` starts with. */
  function DigitRun(s: seq<byte>, base: nat): seq<byte> {
    if s == [] || !IsDigitOf(s[0], base) then [] else [s[0]] + DigitRun(s[1..], base)
  }

  function ReadDigits(s: seq<byte>, base: nat): Option<nat> {
    if DigitRun(s, base) == [] then None else Some(Value(DigitRun(s, base), base))
  }

  /** Spaces, the prefix, digits. */
  function ReadUnsigned(s: seq<byte>, prefix: seq<byte>, base: nat): Option<nat> {
    var t := SkipSpaces(s);
    if prefix <= t then ReadDigits(t[|prefix|..], base) else None
  }

  function WithSign(negative: bool, n: nat): int { if negative then -(n as int) else n as int }

  /** Spaces, perhaps a minus, decimal digits. */
  function ReadSigned(s: seq<byte>): Option<int> {
    var t := SkipSpaces(s);
    var negative := t != [] && t[0] == MINUS;
    match ReadDigits(if negative then t[1..] else t, 10)
    case None => None
    case Some(n) => Some(WithSign(negative, n))
  }

  // ---------- what it makes of the parts ----------

  lemma {:induction false} SkipThem(n: int, s: seq<byte>)
    requires s == [] || s[0] != SPACE
    ensures SkipSpaces(Repeat(SPACE, n) + s) == s
    decreases Max(0, n)
  {
    if n > 0 {
      assert (Repeat(SPACE, n) + s)[1..] == Repeat(SPACE, n - 1) + s;
      SkipThem(n - 1, s);
    } else {
      assert Repeat(SPACE, n) + s == s;
    }
  }

  lemma {:induction false} RunIs(ds: seq<byte>, rest: seq<byte>, base: nat)
    requires (forall k :: 0 <= k < |ds| ==> IsDigitOf(ds[k], base)) && (rest == [] || !IsDigitOf(rest[0], base))
    ensures DigitRun(ds + rest, base) == ds
    decreases |ds|
  {
    if ds == [] {
      assert ds + rest == rest;
    } else {
      assert (ds + rest)[1..] == ds[1..] + rest;
      RunIs(ds[1..], rest, base);
    }
  }

  lemma {:induction false} ZerosCountNothing(n: int, s: seq<byte>, base: nat)
    ensures Value(Repeat(ZERO, n) + s, base) == Value(s, base)
    decreases |s|, Max(0, n)
  {
    var z := Repeat(ZERO, n) + s;
    if s != [] {
      assert z[..|z| - 1] == Repeat(ZERO, n) + s[..|s| - 1];
      ZerosCountNothing(n, s[..|s| - 1], base);
    } else if n > 0 {
      assert z[..|z| - 1] == Repeat(ZERO, n - 1) + [];
      ZerosCountNothing(n - 1, [], base);
    }
  }

  lemma NumeralDigits(value: nat, base: nat, upper: bool)
    requires 2 <= base <= 16
    ensures var s := NumeralOf(value, base, upper);
            Value(s, base) == value && forall k :: 0 <= k < |s| ==> IsDigitOf(s[k], base)
  {
    NumeralOfIs(value, base, upper);
    var s := NumeralOf(value, base, upper);
    forall k | 0 <= k < |s| ensures IsDigitOf(s[k], base) {
      assert IsDigit(s[k], base, upper);
    }
  }

  /** Zeros, the numeral and perhaps spaces read as the value. */
  lemma DigitsRead(value: nat, base: nat, upper: bool, zeros: int, spaces: int)
    requires 2 <= base <= 16
    ensures var s := Repeat(ZERO, zeros) + NumeralOf(value, base, upper) + Repeat(SPACE, spaces);
            ReadDigits(s, base) == Some(value) && s != [] && s[0] != SPACE && s[0] != MINUS
  {
    NumeralDigits(value, base, upper);
    var digits := Repeat(ZERO, zeros) + NumeralOf(value, base, upper);
    forall k | 0 <= k < |digits| ensures IsDigitOf(digits[k], base) && digits[k] != SPACE && digits[k] != MINUS {
    }
    RunIs(digits, Repeat(SPACE, spaces), base);
    ZerosCountNothing(zeros, NumeralOf(value, base, upper), base);
  }

  /** The parts of a number: spaces, sign and prefix, zeros and digits, spaces. */
  lemma NumberParts(value: nat, negative: bool, base: nat, upper: bool, width: int, precision: int, left: bool,
                    zero: bool, prefix: seq<byte>)
    returns (front: int, zeros: int, back: int)
    requires 2 <= base <= 16 && (value != 0 || precision != 0)
    ensures NumberText(value, negative, base, upper, width, precision, left, zero, prefix) ==
            Repeat(SPACE, front)
            + (SignText(negative) + (prefix + (Repeat(ZERO, zeros) + NumeralOf(value, base, upper) + Repeat(SPACE, back))))
  {
    var digits := NumeralOf(value, base, upper);
    var spaces := width - BareLength(value, negative, base, upper, precision, prefix);
    front := if !left && !zero then spaces else 0;
    var fill := if !left && zero && precision < 0 then spaces else 0;
    back := if left then spaces else 0;
    zeros := Max(0, fill) + Max(0, precision - |digits|);
    assert Repeat(ZERO, fill) + Repeat(ZERO, precision - |digits|) == Repeat(ZERO, zeros);
    assert Repeat(SPACE, 0) == [] && Repeat(ZERO, 0) == [];
    hide Repeat, NumeralOf, BareLength;
    assert NumberText(value, negative, base, upper, width, precision, left, zero, prefix) ==
           Repeat(SPACE, front) + SignText(negative) + prefix + Repeat(ZERO, fill) + Repeat(ZERO, precision - |digits|)
           + digits + Repeat(SPACE, back);
    Regroup(Repeat(SPACE, front), SignText(negative), prefix, Repeat(ZERO, fill), Repeat(ZERO, precision - |digits|), digits,
            Repeat(SPACE, back));
  }

  lemma Regroup(a: seq<byte>, b: seq<byte>, c: seq<byte>, d: seq<byte>, e: seq<byte>, f: seq<byte>, g: seq<byte>)
    ensures a + b + c + d + e + f + g == a + (b + (c + ((d + e) + f + g)))
  {
  }

  // ---------- the argument comes back ----------

  lemma SignRead(front: int, negative: bool, digits: seq<byte>, value: nat)
    requires ReadDigits(digits, 10) == Some(value) && digits != [] && digits[0] != SPACE && digits[0] != MINUS
    ensures ReadSigned(Repeat(SPACE, front) + (SignText(negative) + digits)) == Some(WithSign(negative, value))
  {
    hide Repeat, ReadDigits, SkipSpaces;
    var rest := SignText(negative) + digits;
    assert negative ==> rest[1..] == digits;
    assert !negative ==> rest == digits;
    SkipThem(front, rest);
  }

  /** A signed conversion reads back as its argument, sign included, whatever width, precision and flags are. */
  lemma SignedReadsBack(v: int, width: int, precision: int, left: bool, zero: bool)
    requires Signed(v, width, precision, left, zero).Ok() && (v != 0 || precision != 0)
    ensures ReadSigned(Text(Signed(v, width, precision, left, zero))) == Some(v)
  {
    hide NumberText, Repeat, NumeralOf, ReadDigits, ReadSigned, SignText;
    var value := if v < 0 then -v else v;
    var front, zeros, back := NumberParts(value, v < 0, 10, false, width, precision, left, zero, []);
    var digits := Repeat(ZERO, zeros) + NumeralOf(value, 10, false) + Repeat(SPACE, back);
    DigitsRead(value, 10, false, zeros, back);
    assert [] + digits == digits;
    SignRead(front, v < 0, digits, value);
  }

  /** An unsigned one does so behind its prefix, in its base. */
  lemma UnsignedReadsBack(value: nat, base: nat, upper: bool, width: int, precision: int, left: bool, zero: bool, prefix: seq<byte>)
    requires Unsigned(value, base, upper, width, precision, left, zero, prefix).Ok() && (value != 0 || precision != 0)
    requires prefix == [] || prefix[0] != SPACE
    ensures ReadUnsigned(Text(Unsigned(value, base, upper, width, precision, left, zero, prefix)), prefix, base) == Some(value)
  {
    var front, zeros, back := NumberParts(value, false, base, upper, width, precision, left, zero, prefix);
    hide NumberText, Repeat, NumeralOf, ReadDigits, SkipSpaces;
    var digits := Repeat(ZERO, zeros) + NumeralOf(value, base, upper) + Repeat(SPACE, back);
    DigitsRead(value, base, upper, zeros, back);
    var rest := prefix + digits;
    assert SignText(false) + rest == rest && rest[|prefix|..] == digits;
    SkipThem(front, rest);
  }

  /** A zero of precision 0 has no digits: nothing but padding, sign and prefix. */
  lemma NoDigits(width: int, left: bool, zero: bool)
    ensures Text(Signed(0, width, 0, left, zero)) == Repeat(SPACE, if left || !zero then width else 0)
  {
  }

  /** A string is cut to its precision and stands first or last in its field, with spaces beside it. */
  lemma PaddedStands(s: seq<byte>, precision: int, width: int, left: bool)
    ensures var text := Text(Padded(s, precision, width, left));
            var n := if 0 <= precision < |s| then precision else |s|;
            && |text| == Max(width, n)
            && (if left then text[..n] else text[|text| - n..]) == s[..n]
            && forall k :: (if left then n <= k < |text| else 0 <= k < |text| - n) ==> text[k] == SPACE
  {
    var text := Text(Padded(s, precision, width, left));
    var n := if 0 <= precision < |s| then precision else |s|;
    assert Cut(s, precision) == s[..n];
    hide Cut;
    assert text == if left then s[..n] + Repeat(SPACE, width - n) else Repeat(SPACE, width - n) + s[..n];
  }
}
