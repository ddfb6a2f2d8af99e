/** Formatted output: what each conversion emits, and how the two kinds of output collect it. */
module Printf {
  import opened Bytes
  import opened Numerals

  const SPACE: byte := 32
  const MINUS: byte := 45
  const ZERO: byte := 48
  const PERCENT: byte := 37
  const STREAM_SIZE: nat := 512

  /** The parsed directives of a format string, with the arguments they read. */
  datatype Directive =
    | Literal(ch: byte)
    | Padded(s: seq<byte>, precision: int, width: int, left: bool)
    | Signed(v: int, width: int, precision: int, left: bool, zero: bool)
    | Unsigned(value: nat, base: nat, upper: bool, width: int, precision: int, left: bool, zero: bool, prefix: seq<byte>)
    | Unknown(spec: byte)
  {
    /** Arguments are 64-bit numbers, in a base between 2 and 16. */
    predicate Ok() {
      && (Signed? ==> -0x8000_0000_0000_0000 <= v < 0x8000_0000_0000_0000)
      && (Unsigned? ==> value < TWO_64 && 2 <= base <= 16)
    }
  }

  function Max(a: int, b: int): int { if a > b then a else b }

  function Repeat(ch: byte, n: int): (r: seq<byte>)
    ensures |r| == Max(0, n) && forall k :: 0 <= k < |r| ==> r[k] == ch
  {
    seq(Max(0, n), _ => ch)
  }

  /** The numeral, digit by digit. */
  function NumeralOf(value: nat, base: nat, upper: bool): (r: seq<byte>)
    requires 2 <= base <= 16
    ensures |r| > 0
    decreases value
  {
    if value < base then [DigitChar(value, upper)]
    else NumeralOf(value / base, base, upper) + [DigitChar(value % base, upper)]
  }

  lemma {:induction false} NumeralOfIs(value: nat, base: nat, upper: bool)
    requires 2 <= base <= 16
    ensures Numeral(NumeralOf(value, base, upper), value, base, upper)
    ensures value > 0 ==> DigitOf(NumeralOf(value, base, upper)[0]) != 0
    decreases value
  {
    if value < base {
      NumeralDigit(value, base, upper);
      DigitRoundTrip(value, upper);
    } else {
      var q, d := value / base, value % base;
      assert q > 0 && q < value && value == q * base + d by { QuotientSmaller(value, base); }
      NumeralOfIs(q, base, upper);
      NumeralAppend(NumeralOf(q, base, upper), q, d, base, upper);
    }
  }

  lemma QuotientSmaller(value: nat, base: nat)
    requires 2 <= base <= value
    ensures 0 < value / base < value && value == value / base * base + value % base
  {
  }

  /** What emit_number puts between the paddings: `digits` is empty for a zero of precision 0. */
  function DigitsText(value: nat, base: nat, upper: bool, precision: int): seq<byte>
    requires 2 <= base <= 16
  {
    if precision == 0 && value == 0 then [] else NumeralOf(value, base, upper)
  }

  function SignText(negative: bool): seq<byte> { if negative then [MINUS] else [] }

  /** The length of the number without padding: sign, prefix, and as many digits as the precision asks for. */
  function BareLength(value: nat, negative: bool, base: nat, upper: bool, precision: int, prefix: seq<byte>): nat
    requires 2 <= base <= 16
  {
    |SignText(negative)| + |prefix| + Max(precision, |DigitsText(value, base, upper, precision)|)
  }

  /** Everything emit_number emits. */
  function NumberText(value: nat, negative: bool, base: nat, upper: bool, width: int, precision: int, left: bool,
                      zero: bool, prefix: seq<byte>): seq<byte>
    requires 2 <= base <= 16
  {
    var digits := DigitsText(value, base, upper, precision);
    var spaces := width - BareLength(value, negative, base, upper, precision, prefix);
    (if !left && !zero then Repeat(SPACE, spaces) else []) + SignText(negative) + prefix
    + (if !left && zero && precision < 0 then Repeat(ZERO, spaces) else [])
    + Repeat(ZERO, precision - |digits|) + digits
    + (if left then Repeat(SPACE, spaces) else [])
  }

  /** The field is as wide as asked for, or as the number needs, exactly when zero padding does not meet a precision. */
  lemma NumberLength(value: nat, negative: bool, base: nat, upper: bool, width: int, precision: int, left: bool,
                     zero: bool, prefix: seq<byte>)
    requires 2 <= base <= 16
    ensures var n := |NumberText(value, negative, base, upper, width, precision, left, zero, prefix)|;
            var bare := BareLength(value, negative, base, upper, precision, prefix);
            && (n == Max(width, bare) <==> left || !zero || precision < 0 || width <= bare)
            && (n == bare || n == width)
  {
  }

  /** Zero padding together with a precision pads with nothing at all, where section 7.21.6.1 of ISO C11 ignores the flag
      and pads with spaces: the field is as long as the bare number, whatever the width. */
  lemma ZeroPadWithPrecision(value: nat, negative: bool, base: nat, upper: bool, width: int, precision: int, prefix: seq<byte>)
    requires 2 <= base <= 16 && precision >= 0
    ensures |NumberText(value, negative, base, upper, width, precision, false, true, prefix)|
            == BareLength(value, negative, base, upper, precision, prefix)
  {
  }

  /** The digits in the field are the value: they end it, or stand in front of the padding. */
  lemma NumberReadsBack(value: nat, negative: bool, base: nat, upper: bool, width: int, precision: int, left: bool,
                        zero: bool, prefix: seq<byte>)
    requires 2 <= base <= 16 && (value != 0 || precision != 0)
    ensures var text := NumberText(value, negative, base, upper, width, precision, left, zero, prefix);
            var digits := NumeralOf(value, base, upper);
            var end := if left then BareLength(value, negative, base, upper, precision, prefix) else |text|;
            && |digits| <= end <= |text| && text[end - |digits|..end] == digits && Value(digits, base) == value
  {
    NumeralOfIs(value, base, upper);
  }

  function PaddedText(s: seq<byte>, width: int, left: bool): seq<byte> {
    (if left then [] else Repeat(SPACE, width - |s|)) + s + (if left then Repeat(SPACE, width - |s|) else [])
  }

  /** A string is cut to its precision. */
  function Cut(s: seq<byte>, precision: int): seq<byte> {
    if 0 <= precision < |s| then s[..precision] else s
  }

  function Text(d: Directive): seq<byte>
    requires d.Ok()
  {
    match d
    case Literal(ch) => [ch]
    case Padded(s, precision, width, left) => PaddedText(Cut(s, precision), width, left)
    case Signed(v, width, precision, left, zero) =>
      NumberText(if v < 0 then -v else v, v < 0, 10, false, width, precision, left, zero, [])
    case Unsigned(value, base, upper, width, precision, left, zero, prefix) =>
      NumberText(value, false, base, upper, width, precision, left, zero, prefix)
    case Unknown(spec) => [PERCENT, spec]
  }

  function AllText(ds: seq<Directive>): seq<byte>
    requires forall k :: 0 <= k < |ds| ==> ds[k].Ok()
  {
    if ds == [] then [] else AllText(ds[..|ds| - 1]) + Text(ds[|ds| - 1])
  }

  /** The absolute value in 64-bit arithmetic: also right for the least number, which has no positive counterpart. */
  function Magnitude(v: int): nat {
    if v < 0 then (TWO_64 - v % TWO_64) % TWO_64 else v
  }

  lemma MagnitudeIs(v: int)
    requires -0x8000_0000_0000_0000 <= v < 0x8000_0000_0000_0000
    ensures Magnitude(v) == if v < 0 then -v else v
  {
  }

  // ---------- converting ----------

  /** format_unsigned: the digits, least significant first. They fit 64 characters and read back as the value. */
  method FormatUnsigned(buffer: array<byte>, value: nat, base: nat, upper: bool) returns (len: nat)
    requires buffer.Length == 64 && value < TWO_64 && 2 <= base <= 16
    modifies buffer
    ensures 1 <= len <= 64 && ReversedValue(buffer[..len], base) == value
    ensures Reversed(buffer[..len]) == NumeralOf(value, base, upper)
  {
    hide DigitChar, DigitOf, Power, ReversedValue, AllDigits, NumeralOf;
    len := 0;
    if value == 0 {
      buffer[0] := ZERO;
      assert buffer[..1] == [ZERO];
      ZeroNumeral(base, upper);
      return 1;
    }
    var left: nat := value;
    assert buffer[..0] == [];
    assert Converted([], value, value, base, upper) by { NothingConverted(value, base, upper); }
    hide Converted;
    while left != 0
      invariant len <= 64 && Converted(buffer[..len], left, value, base, upper)
      decreases left
    {
      ConvertStep(buffer[..len], left, value, base, upper);
      DivLess(left, base);
      var digit, rest := left % base, left / base;
      buffer[len] := DigitChar(digit, upper);
      assert buffer[..len + 1] == buffer[..len] + [DigitChar(digit, upper)];
      left := rest;
      len := len + 1;
    }
    ReversedIsNumeral(buffer[..len], value, base, upper);
  }

  lemma ZeroNumeral(base: nat, upper: bool)
    requires 2 <= base <= 16
    ensures ReversedValue([ZERO], base) == 0 && Reversed([ZERO]) == NumeralOf(0, base, upper)
  {
    assert [ZERO][1..] == [];
    assert DigitChar(0, upper) == ZERO;
  }

  lemma DivLess(left: nat, base: nat)
    requires left > 0 && base >= 2
    ensures left / base < left && left % base < base
  {
    var q := left / base;
    assert left == q * base + left % base;
    assert q * base >= q * 2;
  }

  lemma NothingConverted(value: nat, base: nat, upper: bool)
    requires value > 0
    ensures Converted([], value, value, base, upper)
  {
    assert Power(base, 0) == 1;
  }

  lemma ReversedIsNumeral(s: seq<byte>, value: nat, base: nat, upper: bool)
    requires 2 <= base <= 16 && Converted(s, 0, value, base, upper)
    ensures s != [] && ReversedValue(s, base) == value && Reversed(s) == NumeralOf(value, base, upper)
  {
    ReversedSame(s, base);
    var r := Reversed(s);
    assert r[0] == s[|s| - 1];
    assert forall k :: 0 <= k < |r| ==> r[k] == s[|s| - 1 - k];
    hide DigitOf, IsDigit;
    NumeralOfIs(value, base, upper);
    NumeralUnique(r, NumeralOf(value, base, upper), value, base, upper);
  }

  // ---------- emitting ----------

  /** What reached the console, chunk after chunk. */
  function Flat(chunks: seq<seq<byte>>): seq<byte> {
    if chunks == [] then [] else Flat(chunks[..|chunks| - 1]) + chunks[|chunks| - 1]
  }

  lemma FlatAppend(chunks: seq<seq<byte>>, chunk: seq<byte>)
    ensures Flat(chunks + [chunk]) == Flat(chunks) + chunk
  {
    assert (chunks + [chunk])[..|chunks|] == chunks;
  }

  /** An output: a bounded buffer (`size` counts the terminator), or a stream that passes chunks on. */
  class Out {
    const streaming: bool
    const buffer: array<byte>
    const size: nat
    const pending: array<byte>
    var len: nat
    var chunks: seq<seq<byte>>
    var count: nat
    /** Everything emitted so far, and what the buffer held before. */
    ghost var text: seq<byte>
    ghost const before: seq<byte>

    ghost predicate Valid()
      reads this, buffer, pending
    {
      && count == |text| && pending.Length == STREAM_SIZE && len <= STREAM_SIZE && size <= buffer.Length == |before|
      && buffer != pending
      && (streaming ==> Flat(chunks) + pending[..len] == text && buffer[..] == before
                        && forall k :: 0 <= k < |chunks| ==> 0 < |chunks[k]| <= STREAM_SIZE)
      && (!streaming ==> forall k :: 0 <= k < buffer.Length ==>
            buffer[k] == if k < count && k + 1 < size then text[k] else before[k])
    }

    constructor (streaming: bool, buffer: array<byte>, size: nat)
      requires size <= buffer.Length
      ensures Valid() && text == [] && count == 0 && fresh(pending) && chunks == [] && len == 0
      ensures this.streaming == streaming && this.buffer == buffer && this.size == size && before == buffer[..]
    {
      this.streaming, this.buffer, this.size := streaming, buffer, size;
      pending := new byte[STREAM_SIZE];
      len, chunks, count, text := 0, [], 0, [];
      before := buffer[..];
    }

    /** buffer_put: what does not fit in front of the terminator is counted but not stored. */
    method BufferPut(ch: byte)
      requires Valid() && !streaming
      modifies buffer
      ensures forall k :: 0 <= k < buffer.Length ==>
                buffer[k] == if k == count && k + 1 < size then ch else old(buffer[k])
    {
      if size > 0 && count + 1 < size {
        buffer[count] := ch;
      }
    }

    /** stream_flush. */
    method Flush()
      requires Valid() && streaming
      modifies `len, `chunks
      ensures Valid() && len == 0 && Flat(chunks) == text
    {
      if len > 0 {
        FlatAppend(chunks, pending[..len]);
        chunks := chunks + [pending[..len]];
        len := 0;
      }
      assert Flat(chunks) + pending[..0] == Flat(chunks);
    }

    /** stream_put. */
    method StreamPut(ch: byte)
      requires Valid() && streaming
      modifies `len, `chunks, pending
      ensures len <= STREAM_SIZE && Flat(chunks) + pending[..len] == text + [ch]
      ensures forall k :: 0 <= k < |chunks| ==> 0 < |chunks[k]| <= STREAM_SIZE
    {
      if len == STREAM_SIZE {
        Flush();
      }
      assert Flat(chunks) + pending[..len] == text;
      pending[len] := ch;
      len := len + 1;
      assert pending[..len] == pending[..len - 1] + [ch];
    }

    method EmitChar(ch: byte)
      requires Valid()
      modifies this, buffer, pending
      ensures Valid() && text == old(text) + [ch]
    {
      if streaming {
        StreamPut(ch);
      } else {
        BufferPut(ch);
      }
      count := count + 1;
      text := text + [ch];
    }

    method EmitRepeat(ch: byte, n: int)
      requires Valid()
      modifies this, buffer, pending
      ensures Valid() && text == old(text) + Repeat(ch, n)
    {
      var i := 0;
      while i < n
        invariant 0 <= i <= Max(0, n) && Valid() && text == old(text) + Repeat(ch, i)
      {
        EmitChar(ch);
        i := i + 1;
      }
    }

    /** Padding, if it is due. */
    method EmitPadding(due: bool, ch: byte, n: int)
      requires Valid()
      modifies this, buffer, pending
      ensures Valid() && text == old(text) + if due then Repeat(ch, n) else []
    {
      if due {
        EmitRepeat(ch, n);
      }
    }

    method EmitAll(s: seq<byte>)
      requires Valid()
      modifies this, buffer, pending
      ensures Valid() && text == old(text) + s
    {
      for i := 0 to |s|
        invariant Valid() && text == old(text) + s[..i]
      {
        EmitChar(s[i]);
      }
    }

    /** emit_padded_string. */
    method EmitPaddedString(s: seq<byte>, width: int, left: bool)
      requires Valid()
      modifies this, buffer, pending
      ensures Valid() && text == old(text) + PaddedText(s, width, left)
    {
      var padding := if width > |s| then width - |s| else 0;
      if !left {
        EmitRepeat(SPACE, padding);
      }
      EmitAll(s);
      if left {
        EmitRepeat(SPACE, padding);
      }
    }

    /** The last loop of emit_number: the digits from the last one produced to the first. */
    method EmitDigits(digits: array<byte>, n: nat)
      requires Valid() && n <= digits.Length && digits != buffer && digits != pending
      modifies this, buffer, pending
      ensures Valid() && text == old(text) + Reversed(digits[..n])
    {
      ghost var r := Reversed(digits[..n]);
      var i := n;
      while i > 0
        invariant 0 <= i <= n && Valid() && text == old(text) + r[..n - i] && digits[..] == old(digits[..])
      {
        i := i - 1;
        EmitChar(digits[i]);
        assert r[..n - i] == r[..n - i - 1] + [digits[i]];
      }
      assert r[..n] == r;
    }

    /** Sign and prefix. */
    method EmitFront(negative: bool, prefix: seq<byte>)
      requires Valid()
      modifies this, buffer, pending
      ensures Valid() && text == old(text) + SignText(negative) + prefix
    {
      if negative {
        EmitChar(MINUS);
      }
      EmitAll(prefix);
    }

    /** emit_number. */
    method EmitNumber(value: nat, negative: bool, base: nat, upper: bool, width: int, precision: int, left: bool,
                      zero: bool, prefix: seq<byte>)
      requires Valid() && value < TWO_64 && 2 <= base <= 16
      modifies this, buffer, pending
      ensures Valid()
      ensures text == old(text) + NumberText(value, negative, base, upper, width, precision, left, zero, prefix)
    {
      hide NumeralOf, ReversedValue, Valid, NumberText, DigitsText, Repeat, Reversed, SignText, Max, BareLength;
      var digits := new byte[64];
      var n := FormatUnsigned(digits, value, base, upper);
      if precision == 0 && value == 0 {
        n := 0;
      }
      ghost var shown := DigitsText(value, base, upper, precision);
      assert Reversed(digits[..n]) == shown && |shown| == n by { Shown(digits[..n], value, base, upper, precision); }
      var zeroes := if precision > n then precision - n else 0;
      var total := (if negative then 1 else 0) + |prefix| + zeroes + n;
      var spaces := if width > total then width - total else 0;
      Widths(value, negative, base, upper, width, precision, prefix, n, zeroes, total, spaces);
      ghost var t0 := text;
      ghost var a := if !left && !zero then Repeat(SPACE, spaces) else [];
      EmitPadding(!left && !zero, SPACE, spaces);
      EmitFront(negative, prefix);
      ghost var b := if !left && zero && precision < 0 then Repeat(ZERO, spaces) else [];
      EmitPadding(!left && zero && precision < 0, ZERO, spaces);
      assert text == t0 + a + SignText(negative) + prefix + b;
      EmitRepeat(ZERO, zeroes);
      EmitDigits(digits, n);
      ghost var c := if left then Repeat(SPACE, spaces) else [];
      EmitPadding(left, SPACE, spaces);
      assert text == t0 + a + SignText(negative) + prefix + b + Repeat(ZERO, zeroes) + shown + c;
      PartsOf(value, negative, base, upper, width, precision, left, zero, prefix, a, b, zeroes, c, spaces);
      Assemble(t0, a, SignText(negative), prefix, b, Repeat(ZERO, zeroes), shown, c);
    }

    /** vformat, directive by directive. */
    method Format(ds: seq<Directive>)
      requires Valid() && forall k :: 0 <= k < |ds| ==> ds[k].Ok()
      modifies this, buffer, pending
      ensures Valid() && text == old(text) + AllText(ds)
    {
      hide Valid, Text, AllText;
      assert text == text + AllText(ds[..0]) by { NoText(ds); }
      for i := 0 to |ds|
        invariant Valid() && text == old(text) + AllText(ds[..i])
      {
        AllTextStep(ds, i);
        FormatOne(ds[i]);
      }
      assert ds[..|ds|] == ds;
    }

    method FormatOne(d: Directive)
      requires Valid() && d.Ok()
      modifies this, buffer, pending
      ensures Valid() && text == old(text) + Text(d)
    {
      hide Valid, NumberText, PaddedText, Cut, Magnitude;
      match d {
        case Literal(ch) => EmitChar(ch);
        case Padded(s, precision, width, left) => EmitPaddedString(Cut(s, precision), width, left);
        case Signed(v, width, precision, left, zero) =>
          var negative := v < 0;
          MagnitudeIs(v);
          EmitNumber(Magnitude(v), negative, 10, false, width, precision, left, zero, []);
        case Unsigned(value, base, upper, width, precision, left, zero, prefix) =>
          EmitNumber(value, false, base, upper, width, precision, left, zero, prefix);
        case Unknown(spec) =>
          EmitChar(PERCENT);
          EmitChar(spec);
      }
    }
  }

  lemma NoText(ds: seq<Directive>)
    requires forall k :: 0 <= k < |ds| ==> ds[k].Ok()
    ensures AllText(ds[..0]) == []
  {
  }

  lemma Shown(s: seq<byte>, value: nat, base: nat, upper: bool, precision: int)
    requires 2 <= base <= 16
    requires if precision == 0 && value == 0 then s == [] else Reversed(s) == NumeralOf(value, base, upper)
    ensures Reversed(s) == DigitsText(value, base, upper, precision) && |DigitsText(value, base, upper, precision)| == |s|
  {
  }

  /** The widths emit_number computes. */
  lemma Widths(value: nat, negative: bool, base: nat, upper: bool, width: int, precision: int, prefix: seq<byte>,
               n: nat, zeroes: int, total: int, spaces: int)
    requires 2 <= base <= 16 && n == |DigitsText(value, base, upper, precision)|
    requires zeroes == (if precision > n then precision - n else 0)
    requires total == (if negative then 1 else 0) + |prefix| + zeroes + n
    requires spaces == if width > total then width - total else 0
    ensures zeroes == Max(0, precision - n) && spaces == Max(0, width - BareLength(value, negative, base, upper, precision, prefix))
  {
  }

  /** The parts in the order they are emitted. */
  lemma PartsOf(value: nat, negative: bool, base: nat, upper: bool, width: int, precision: int, left: bool, zero: bool,
                prefix: seq<byte>, a: seq<byte>, b: seq<byte>, zeroes: int, c: seq<byte>, spaces: int)
    requires 2 <= base <= 16
    requires zeroes == Max(0, precision - |DigitsText(value, base, upper, precision)|)
    requires spaces == Max(0, width - BareLength(value, negative, base, upper, precision, prefix))
    requires a == if !left && !zero then Repeat(SPACE, spaces) else []
    requires b == if !left && zero && precision < 0 then Repeat(ZERO, spaces) else []
    requires c == if left then Repeat(SPACE, spaces) else []
    ensures NumberText(value, negative, base, upper, width, precision, left, zero, prefix)
            == a + SignText(negative) + prefix + b + Repeat(ZERO, zeroes) + DigitsText(value, base, upper, precision) + c
  {
    var digits, bare := DigitsText(value, base, upper, precision), BareLength(value, negative, base, upper, precision, prefix);
    assert Repeat(SPACE, width - bare) == Repeat(SPACE, spaces) && Repeat(ZERO, width - bare) == Repeat(ZERO, spaces);
    assert Repeat(ZERO, precision - |digits|) == Repeat(ZERO, zeroes);
    hide Repeat, DigitsText, BareLength;
  }

  lemma Assemble(t: seq<byte>, a: seq<byte>, b: seq<byte>, c: seq<byte>, d: seq<byte>, e: seq<byte>, f: seq<byte>, g: seq<byte>)
    ensures t + a + b + c + d + e + f + g == t + (a + b + c + d + e + f + g)
  {
  }

  lemma AllTextStep(ds: seq<Directive>, i: nat)
    requires i < |ds| && forall k :: 0 <= k < |ds| ==> ds[k].Ok()
    ensures AllText(ds[..i + 1]) == AllText(ds[..i]) + Text(ds[i])
  {
    assert ds[..i + 1][..i] == ds[..i];
  }

  /** A count as the `int` the functions return. */
  function ToInt(n: nat): int {
    (n + 0x8000_0000) % TWO_32 - 0x8000_0000
  }

  /** vsnprintf: the text cut to what fits, a terminator behind it, and the length of the whole text. */
  method Vsnprintf(s: array<byte>, n: nat, ds: seq<Directive>) returns (r: int)
    requires n <= s.Length && forall k :: 0 <= k < |ds| ==> ds[k].Ok()
    modifies s
    ensures r == ToInt(|AllText(ds)|) && (|AllText(ds)| < 0x8000_0000 ==> r == |AllText(ds)|)
    ensures n == 0 ==> s[..] == old(s[..])
    ensures n > 0 ==>
              var stored := Min(|AllText(ds)|, n - 1);
              s[..stored] == AllText(ds)[..stored] && s[stored] == 0 && s[stored + 1..] == old(s[stored + 1..])
  {
    hide AllText, Flat;
    var out := new Out(false, s, n);
    out.Format(ds);
    assert out.text == AllText(ds);
    if n > 0 {
      var terminator := if out.count < n then out.count else n - 1;
      s[terminator] := 0;
    }
    return ToInt(out.count);
  }

  /** vprintf: the chunks written add up to the text; none is empty, and none is longer than the stream's buffer. */
  method Vprintf(ds: seq<Directive>) returns (r: int, chunks: seq<seq<byte>>)
    requires forall k :: 0 <= k < |ds| ==> ds[k].Ok()
    ensures Flat(chunks) == AllText(ds) && r == ToInt(|AllText(ds)|)
    ensures forall k :: 0 <= k < |chunks| ==> 0 < |chunks[k]| <= STREAM_SIZE
  {
    var none := new byte[0];
    var out := new Out(true, none, 0);
    out.Format(ds);
    out.Flush();
    return ToInt(out.count), out.chunks;
  }
}
