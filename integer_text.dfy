/**
 * StringUtils::ToString for the four integer widths: the digit pair table,
 * the right-to-left fill of a 15-character stack buffer two digits at a
 * time, and C++ division, which truncates toward zero.
 */
module IntegerText {
  import opened Options
  import opened DigitPairs

  /** STRING_UTILS_ITOSTR_BUFFER_SIZE. */
  const ItostrBufferSize: nat := 15

  // ---------------------------------------------------------------------
  // Decimal text, the reference the formatter is proved against
  // ---------------------------------------------------------------------

  predicate IsDigit(c: char) {
    '0' <= c <= '9'
  }

  predicate AllDigits(s: string) {
    forall k | 0 <= k < |s| :: IsDigit(s[k])
  }

  /** The decimal digits of `n`, most significant first, without leading zeros. */
  function Digits(n: nat): (s: string)
    ensures |s| >= 1
  {
    if n < 10 then [DigitChar(n)] else Digits(n / 10) + [DigitChar(n % 10)]
  }

  /** The text of `n` is made of digits, and it starts with '0' only for zero. */
  lemma {:induction false} DigitsWellFormed(n: nat)
    ensures AllDigits(Digits(n))
    ensures Digits(n)[0] == '0' <==> n == 0
  {
    if n >= 10 {
      DigitsWellFormed(n / 10);
      assert Digits(n)[0] == Digits(n / 10)[0];
    }
  }

  /** Decimal text of `v`: a '-' before the digits of `|v|` when `v` is negative. */
  function DecimalText(v: int): string {
    if v < 0 then "-" + Digits(-v) else Digits(v)
  }

  function Pow10(k: nat): (p: int)
    ensures p >= 1
  {
    if k == 0 then 1 else 10 * Pow10(k - 1)
  }

  /** The value of a string of digits. */
  function DigitsValue(s: string): (n: int)
    requires AllDigits(s)
    ensures 0 <= n < Pow10(|s|)
  {
    if s == [] then 0 else DigitsValue(s[..|s| - 1]) * 10 + (s[|s| - 1] as int - '0' as int)
  }

  /** Reads back a decimal text: an optional '-' followed by at least one digit. */
  function ParseDecimal(s: string): (r: Option<int>)
    ensures r.Some? <==> (|s| >= 1 && AllDigits(s)) || (|s| >= 2 && s[0] == '-' && AllDigits(s[1..]))
  {
    if |s| >= 1 && AllDigits(s) then Some(DigitsValue(s))
    else if |s| >= 2 && s[0] == '-' && AllDigits(s[1..]) then Some(-DigitsValue(s[1..]))
    else None
  }

  /** Decimal text without leading zeros and without "-0". */
  predicate Canonical(s: string) {
    if |s| >= 1 && s[0] == '-' then |s| >= 2 && s[1] != '0'
    else |s| >= 1 && (s[0] != '0' || |s| == 1)
  }

  lemma {:induction false} DigitsValueOfDigits(n: nat)
    ensures AllDigits(Digits(n)) && DigitsValue(Digits(n)) == n
  {
    DigitsWellFormed(n);
    var s := Digits(n);
    if n >= 10 {
      DigitsValueOfDigits(n / 10);
      assert s[..|s| - 1] == Digits(n / 10);
    }
  }

  lemma {:induction false} DigitsValuePositive(s: string)
    requires |s| >= 1 && AllDigits(s) && s[0] != '0'
    ensures DigitsValue(s) >= 1
  {
    if |s| > 1 {
      DigitsValuePositive(s[..|s| - 1]);
    }
  }

  /** A digit string without leading zeros is the digits of its value. */
  lemma {:induction false} DigitsOfDigitsValue(s: string)
    requires |s| >= 1 && AllDigits(s) && (s[0] != '0' || |s| == 1)
    ensures Digits(DigitsValue(s)) == s
  {
    if |s| > 1 {
      var t := s[..|s| - 1];
      DigitsValuePositive(t);
      DigitsOfDigitsValue(t);
      var n := DigitsValue(s);
      assert n / 10 == DigitsValue(t) && n % 10 == s[|s| - 1] as int - '0' as int;
      assert t + [s[|s| - 1]] == s;
    }
  }

  /** `|Digits(n)|` digits are needed exactly for the values below the next power of ten. */
  lemma {:induction false} DigitsLength(n: nat, k: nat)
    requires k >= 1
    ensures |Digits(n)| <= k <==> n < Pow10(k)
  {
    if n >= 10 && k > 1 {
      DigitsLength(n / 10, k - 1);
    }
  }

  /** The text starts with '-' exactly for negative values. */
  lemma DecimalTextSign(v: int)
    ensures DecimalText(v)[0] == '-' <==> v < 0
    ensures v >= 0 ==> AllDigits(DecimalText(v))
    ensures v < 0 ==> AllDigits(DecimalText(v)[1..])
  {
    if v < 0 {
      DigitsWellFormed(-v);
      assert DecimalText(v)[1..] == Digits(-v);
    } else {
      DigitsWellFormed(v);
    }
  }

  /** The text reads back as the value, and it has no leading zeros. */
  lemma DecimalTextReadBack(v: int)
    ensures ParseDecimal(DecimalText(v)) == Some(v)
    ensures Canonical(DecimalText(v))
  {
    if v < 0 {
      var d := Digits(-v);
      var t := "-" + d;
      assert t[1..] == d && t[0] == '-';
      DigitsWellFormed(-v);
      DigitsValueOfDigits(-v);
      assert !AllDigits(t) by {
        assert !IsDigit(t[0]);
      }
      assert ParseDecimal(t) == Some(-DigitsValue(d));
      assert t[1] == d[0] != '0';
    } else {
      DigitsValueOfDigits(v);
      DigitsWellFormed(v);
    }
  }

  /** A canonical decimal text is the text of the value it reads as. */
  lemma CanonicalTextUnique(s: string)
    requires Canonical(s) && ParseDecimal(s).Some?
    ensures DecimalText(ParseDecimal(s).value) == s
  {
    if s[0] == '-' {
      var t := s[1..];
      DigitsValuePositive(t);
      DigitsOfDigitsValue(t);
      assert "-" + t == s;
    } else {
      DigitsOfDigitsValue(s);
    }
  }

  lemma Pow10Values()
    ensures Pow10(14) == 100000000000000
    ensures Pow10(20) == 100000000000000000000
  {
    assert Pow10(2) == 100;
    assert Pow10(4) == 10000;
    assert Pow10(6) == 1000000;
    assert Pow10(8) == 100000000;
    assert Pow10(10) == 10000000000;
    assert Pow10(12) == 1000000000000;
    assert Pow10(14) == 100000000000000;
    assert Pow10(16) == 10000000000000000;
    assert Pow10(18) == 1000000000000000000;
  }

  // ---------------------------------------------------------------------
  // The formatter
  // ---------------------------------------------------------------------

  /** C++ integer division: the quotient is truncated toward zero, so the
      remainder has the sign of the dividend. */
  function TruncDiv(a: int, b: int): (q: int)
    requires b > 0
    ensures a >= 0 ==> 0 <= a - q * b < b
    ensures a < 0 ==> -b < a - q * b <= 0
  {
    if a >= 0 then a / b else -((-a) / b)
  }

  /** The type of `value` in each ToString overload. In all four, `div` has
      the signed type of the same width: `int32 div` for int32 and uint32,
      `int64 div` for int64 and uint64. */
  datatype Width = Int32 | Int64 | UInt32 | UInt64

  predicate IsSigned(w: Width) {
    w == Int32 || w == Int64
  }

  /** 2^32 or 2^64. */
  function Modulus(w: Width): int {
    if w == Int32 || w == UInt32 then 0x1_0000_0000 else 0x1_0000_0000_0000_0000
  }

  /** `value` is a value of the type `w`. */
  predicate InRange(value: int, w: Width) {
    if IsSigned(w) then -Modulus(w) / 2 <= value < Modulus(w) / 2 else 0 <= value < Modulus(w)
  }

  /** The signed integer of the width of `w` that `x` wraps around to, as two's
      complement arithmetic does. */
  function Wrap(x: int, w: Width): (r: int)
    ensures -Modulus(w) / 2 <= r < Modulus(w) / 2
    ensures -Modulus(w) / 2 <= x < Modulus(w) / 2 ==> r == x
  {
    (x + Modulus(w) / 2) % Modulus(w) - Modulus(w) / 2
  }

  /**
   * `value - div * 100` as the loops evaluate it. The product is computed in
   * `div`'s signed type; in the unsigned overloads it leaves that type's
   * range once `value` is at least 2147483700 (uint32) or
   * 9223372036854775900 (uint64), and it is taken to wrap around. In the
   * unsigned overloads the difference is then taken modulo 2^32 or 2^64, by
   * the usual arithmetic conversions. The wrapped product still gives the
   * exact remainder.
   */
  function PairIndex(value: int, div: int, w: Width): (r: int)
    requires InRange(value, w) && div == TruncDiv(value, 100)
    ensures r == value - div * 100
  {
    var product := Wrap(div * 100, w);
    PairIndexExact(value, div, product, w);
    if IsSigned(w) then Wrap(value - product, w) else (value - product) % Modulus(w)
  }

  lemma PairIndexExact(value: int, div: int, product: int, w: Width)
    requires InRange(value, w) && div == TruncDiv(value, 100) && product == Wrap(div * 100, w)
    ensures IsSigned(w) ==> product == div * 100 && Wrap(value - product, w) == value - div * 100
    ensures !IsSigned(w) ==> (value - product) % Modulus(w) == value - div * 100
  {
    var m := Modulus(w);
    var q := (div * 100 + m / 2) / m;
    assert product == div * 100 - q * m;
    if !IsSigned(w) {
      assert 0 <= q <= 1;
      ModuloShift(value - div * 100, q, m);
    }
  }

  lemma ModuloShift(a: int, q: int, m: int)
    requires 0 <= a < m && 0 <= q <= 1
    ensures (a + q * m) % m == a
  {
    if q == 1 {
      assert a + q * m == a + m;
    }
  }

  /** 4294967295 makes ToString(uint32) compute 42949672 * 100 = 4294967200,
      above the largest int32; the wrapped product still gives the index 95. */
  lemma UnsignedProductOverflows()
    ensures 4294967295 / 100 * 100 >= Modulus(UInt32) / 2
    ensures PairIndex(4294967295, 42949672, UInt32) == 95
    ensures 18446744073709551615 / 100 * 100 >= Modulus(UInt64) / 2
    ensures PairIndex(18446744073709551615, 184467440737095516, UInt64) == 15
  {
  }

  /** Two consecutive digits of an integer below 100, most significant first. */
  function Pair(r: int): string
    requires 0 <= r < 100
  {
    [DigitChar(r / 10), DigitChar(r % 10)]
  }

  /** The digits of a value of at least 100 are those of its hundreds
      followed by the two digits of its last two decimal places. */
  lemma DigitsSplit(n: nat)
    requires n >= 100
    ensures Digits(n) == Digits(n / 100) + Pair(n % 100)
  {
    assert n / 10 / 10 == n / 100 && n / 10 % 10 == n % 100 / 10 && n % 10 == n % 100 % 10;
    assert Digits(n / 10) == Digits(n / 100) + [DigitChar(n % 100 / 10)];
  }

  /** One turn of the `while (div)` loop: the text still to be produced for
      `m` splits into the text for `m / 100` and the pair just written. */
  lemma PairStep(total: string, m: nat, tail: string)
    requires m >= 100 && total == Digits(m) + tail
    ensures total == Digits(m / 100) + (Pair(m % 100) + tail)
    ensures |Digits(m / 100)| + 2 == |Digits(m)|
  {
    DigitsSplit(m);
  }

  /** The last pair written: both its digits for 10-99, and a leading '0'
      that is skipped or overwritten for 0-9. */
  lemma LastPair(m: nat)
    requires m < 100
    ensures m >= 10 ==> Pair(m) == Digits(m)
    ensures m < 10 ==> Pair(m) == ['0'] + Digits(m)
  {
    if m >= 10 {
      assert Digits(m) == Digits(m / 10) + [DigitChar(m % 10)];
    }
  }

  /** Platform::MemoryCopy(it, &digit_pairs[2 * r], 2). */
  method CopyPair(buf: array<char>, at: nat, r: int)
    requires at + 1 < buf.Length && 0 <= r < 100
    modifies buf
    ensures buf[..at] == old(buf[..at])
    ensures buf[at..] == Pair(r) + old(buf[at + 2..])
  {
    DigitPairsAt(r);
    buf[at] := TableChar(2 * r);
    buf[at + 1] := TableChar(2 * r + 1);
    assert buf[at..] == buf[at..at + 2] + buf[at + 2..];
  }

  /**
   * The body shared by ToString(int32) and ToString(int64) of lines 329-370
   * and 372-413, over a buffer of `size` characters: its `value >= 0` branch
   * is the unsigned formatter. The caller must keep every write inside the
   * buffer, which holds exactly when `|value|` has at most `size - 1` digits
   * (see LowestWriteInBuffer).
   */
  method FormatSigned(value: int, size: nat, w: Width) returns (s: string)
    requires IsSigned(w) && InRange(value, w)
    requires size >= 2
    requires -Pow10(size - 1) < value < Pow10(size - 1)
    ensures s == DecimalText(value)
  {
    if value >= 0 {
      DigitsLength(value, size - 1);
      s := FormatUnsigned(value, size, w);
    } else {
      DigitsLength(-value, size - 1);
      s := FormatNegative(value, size, w);
    }
  }

  /** The `value < 0` branch: pairs are taken from the negated remainders,
      so the lowest value is never negated, and a '-' goes in front. */
  method FormatNegative(value: int, size: nat, w: Width) returns (s: string)
    requires IsSigned(w) && InRange(value, w)
    requires value < 0 && |Digits(-value)| < size
    ensures s == "-" + Digits(-value)
  {
    var buf := new char[size];
    var it, v := NegativePairs(buf, value, w);
    ghost var tail := buf[it + 2..];
    CopyPair(buf, it, -v);
    assert buf[it..] == Pair(-v) + tail;
    LastPair(-v);
    if v <= -10 {
      it := it - 1;
    }
    buf[it] := '-';
    assert buf[it + 1..] == Digits(-v) + tail;
    s := buf[it..];
  }

  /** PairStep for a negative `v` and its truncated quotient `div`. */
  lemma NegativeStep(total: string, v: int, div: int, tail: string)
    requires v < 0 && div == TruncDiv(v, 100) && div != 0 && total == Digits(-v) + tail
    ensures div < 0 && 0 <= -(v - div * 100) < 100
    ensures total == Digits(-div) + (Pair(-(v - div * 100)) + tail)
    ensures |Digits(-div)| + 2 == |Digits(-v)|
  {
    var m: nat := -v;
    assert div == -(m / 100) && -(v - div * 100) == m % 100;
    PairStep(total, m, tail);
  }

  /** The `while (div)` loop of the `value < 0` branch, from the end of the
      buffer: what is left to write is the text of the final `value`. */
  method NegativePairs(buf: array<char>, value: int, w: Width) returns (it: nat, v: int)
    requires IsSigned(w) && InRange(value, w)
    requires value < 0 && |Digits(-value)| < buf.Length
    modifies buf
    ensures -100 < v < 0 && it + 2 <= buf.Length && |Digits(-v)| <= it + 1
    ensures Digits(-value) == Digits(-v) + buf[it + 2..]
  {
    it := buf.Length - 2;
    v := value;
    ghost var total := Digits(-value);
    var div := TruncDiv(v, 100);
    while div != 0
      invariant value <= v < 0 && div == TruncDiv(v, 100)
      invariant it + 2 <= buf.Length && |Digits(-v)| <= it + 1
      invariant total == Digits(-v) + buf[it + 2..]
      decreases -v
    {
      ghost var tail := buf[it + 2..];
      NegativeStep(total, v, div, tail);
      CopyPair(buf, it, -PairIndex(v, div, w));
      ghost var done := buf[it..];
      v := div;
      it := it - 2;
      assert buf[it + 2..] == done;
      div := TruncDiv(v, 100);
    }
  }

  /**
   * The body shared by ToString(uint32) and ToString(uint64) of lines
   * 415-435 and 437-457, which is also the `value >= 0` branch of the
   * signed ones.
   */
  method FormatUnsigned(value: nat, size: nat, w: Width) returns (s: string)
    requires InRange(value, w)
    requires |Digits(value)| < size
    ensures s == Digits(value)
  {
    var buf := new char[size];
    var it, v := UnsignedPairs(buf, value, w);
    ghost var tail := buf[it + 2..];
    CopyPair(buf, it, v);
    assert buf[it..] == Pair(v) + tail;
    LastPair(v);
    if v < 10 {
      it := it + 1;
    }
    assert buf[it..] == Digits(v) + tail;
    s := buf[it..];
  }

  /** The `while (div)` loop of the unsigned formatter. */
  method UnsignedPairs(buf: array<char>, value: nat, w: Width) returns (it: nat, v: nat)
    requires InRange(value, w)
    requires |Digits(value)| < buf.Length
    modifies buf
    ensures v < 100 && it + 2 <= buf.Length && |Digits(v)| <= it + 1
    ensures Digits(value) == Digits(v) + buf[it + 2..]
  {
    it := buf.Length - 2;
    v := value;
    var div := v / 100;
    while div != 0
      invariant v <= value && div == v / 100
      invariant it + 2 <= buf.Length && |Digits(v)| <= it + 1
      invariant Digits(value) == Digits(v) + buf[it + 2..]
      decreases v
    {
      ghost var tail := buf[it + 2..];
      PairStep(Digits(value), v, tail);
      CopyPair(buf, it, PairIndex(v, div, w));
      ghost var done := buf[it..];
      assert done == Pair(v % 100) + tail;
      v := div;
      it := it - 2;
      assert buf[it + 2..] == done;
      div := v / 100;
    }
  }

  /** ToString(int32), lines 329-370: every int32 value fits the buffer. */
  method ToStringInt32(value: int) returns (s: string)
    requires -0x8000_0000 <= value < 0x8000_0000
    ensures s == DecimalText(value)
  {
    Pow10Values();
    s := FormatSigned(value, ItostrBufferSize, Int32);
  }

  /** ToString(int64), lines 372-413, for the values whose writes stay in the
      15-character buffer. */
  method ToStringInt64(value: int) returns (s: string)
    requires -0x8000_0000_0000_0000 <= value < 0x8000_0000_0000_0000
    requires -100000000000000 < value < 100000000000000
    ensures s == DecimalText(value)
  {
    Pow10Values();
    s := FormatSigned(value, ItostrBufferSize, Int64);
  }

  /** ToString(uint32), lines 415-435: every uint32 value fits the buffer,
      and the int32 product of line 423 is taken to wrap (PairIndex). */
  method ToStringUInt32(value: nat) returns (s: string)
    requires value < 0x1_0000_0000
    ensures s == DecimalText(value)
  {
    Pow10Values();
    DigitsLength(value, ItostrBufferSize - 1);
    s := FormatUnsigned(value, ItostrBufferSize, UInt32);
  }

  /** ToString(uint64), lines 437-457, for the values whose writes stay in
      the 15-character buffer; the int64 product of line 445 cannot overflow
      for them. */
  method ToStringUInt64(value: nat) returns (s: string)
    requires value < 0x1_0000_0000_0000_0000
    requires value < 100000000000000
    ensures s == DecimalText(value)
  {
    Pow10Values();
    DigitsLength(value, ItostrBufferSize - 1);
    s := FormatUnsigned(value, ItostrBufferSize, UInt64);
  }

  // ---------------------------------------------------------------------
  // The 64-bit overloads and the 15-character buffer
  // ---------------------------------------------------------------------

  /**
   * The `while (div)` loop as written, on the magnitude `v` of the value,
   * from buffer position `it`: the position and the value left when it ends.
   */
  function PairLoop(v: nat, it: int): (r: (int, nat))
    ensures r.0 <= it && r.1 < 100
  {
    if v < 100 then (it, v) else PairLoop(v / 100, it - 2)
  }

  /** The lowest buffer index ToString writes for `value` when its buffer has
      `size` characters: the last pair, or the '-' one before it. */
  function LowestWrite(value: int, size: int): (r: int)
    ensures r <= size - 2
  {
    var (it, last) := PairLoop(if value < 0 then -value else value, size - 2);
    if value < 0 && last >= 10 then it - 1 else it
  }

  /** Two more digits are one more pair and the same parity. */
  lemma Parity(len: int, shorter: int)
    requires len == shorter + 2
    ensures (len - 1) / 2 == (shorter - 1) / 2 + 1 && len % 2 == shorter % 2
  {
  }

  lemma {:induction false} PairLoopShape(v: nat, it: int)
    ensures PairLoop(v, it).0 == it - 2 * ((|Digits(v)| - 1) / 2)
    ensures PairLoop(v, it).1 >= 10 <==> |Digits(v)| % 2 == 0
  {
    var len := |Digits(v)|;
    if v >= 100 {
      PairLoopShape(v / 100, it - 2);
      PairStep(Digits(v), v, []);
      Parity(len, |Digits(v / 100)|);
    } else {
      DigitsWellFormed(v);
      assert len == if v < 10 then 1 else 2;
    }
  }

  /** Every write stays in an odd-sized buffer exactly when `|value|` has at
      most `size - 1` digits. */
  lemma LowestWriteInBuffer(value: int, size: nat)
    requires size >= 3 && size % 2 == 1
    ensures LowestWrite(value, size) >= 0 <==> -Pow10(size - 1) < value < Pow10(size - 1)
  {
    var m: nat := if value < 0 then -value else value;
    PairLoopShape(m, size - 2);
    DigitsLength(m, size - 1);
  }

  /** 10^14 is an int64 and a uint64 value whose last pair ToString writes at
      buf[-1], before the 15-character buffer. */
  lemma Int64OverflowsBuffer()
    ensures LowestWrite(100000000000000, ItostrBufferSize) == -1
  {
    assert PairLoop(100000000000000, 13) == (-1, 1);
  }

  /** ToString(int64) with a buffer of 21 characters, which holds the digits
      of every int64 value. */
  method ToStringInt64Wide(value: int) returns (s: string)
    requires -0x8000_0000_0000_0000 <= value < 0x8000_0000_0000_0000
    ensures s == DecimalText(value)
  {
    Pow10Values();
    s := FormatSigned(value, 21, Int64);
  }

  /** ToString(uint64) with a buffer of 21 characters, which holds the digits
      of every uint64 value; the int64 product of line 445 is taken to wrap
      (PairIndex). */
  method ToStringUInt64Wide(value: nat) returns (s: string)
    requires value < 0x1_0000_0000_0000_0000
    ensures s == DecimalText(value)
  {
    Pow10Values();
    DigitsLength(value, 20);
    s := FormatUnsigned(value, 21, UInt64);
  }
}
