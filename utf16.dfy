/**
 * UTF-16 side of StringUtils::ConvertUTF82UTF16: code units, the surrogate
 * split of section 2.1 of RFC 2781, the emission of code points as UTF-16
 * units, and the unit-counting loop exactly as the engine writes it.
 */
module Utf16 {
  import opened Options

  /** A UTF-16 code unit: the engine's 16-bit `Char`. */
  type Char = x: int | 0 <= x < 0x1_0000

  /** A Unicode scalar value: a code point that is not a surrogate. */
  predicate IsScalar(c: int) {
    0 <= c <= 0x10FFFF && !(0xD800 <= c <= 0xDFFF)
  }

  /** A code point that needs a surrogate pair. */
  predicate IsSupplementary(c: int) {
    c > 0xFFFF
  }

  predicate IsHighSurrogate(u: int) {
    0xD800 <= u <= 0xDBFF
  }

  predicate IsLowSurrogate(u: int) {
    0xDC00 <= u <= 0xDFFF
  }

  /** Every code point of `cps` fits in one unit. */
  predicate AllBmp(cps: seq<int>) {
    forall k | 0 <= k < |cps| :: !IsSupplementary(cps[k])
  }

  predicate AllScalar(cps: seq<int>) {
    forall k | 0 <= k < |cps| :: IsScalar(cps[k])
  }

  /** The high and low surrogate of a supplementary code point: `c - 0x10000`
      shifted right by 10 plus 0xD800, and its low 10 bits plus 0xDC00. */
  function SurrogatePair(c: int): (p: (Char, Char))
    requires 0x10000 <= c <= 0x10FFFF
    ensures IsHighSurrogate(p.0) && IsLowSurrogate(p.1)
  {
    var v := c - 0x10000;
    (v / 0x400 + 0xD800, v % 0x400 + 0xDC00)
  }

  /** The code point a high and a low surrogate stand for. */
  function CombineSurrogates(high: int, low: int): (c: int)
    requires IsHighSurrogate(high) && IsLowSurrogate(low)
    ensures 0x10000 <= c <= 0x10FFFF && IsScalar(c)
  {
    (high - 0xD800) * 0x400 + (low - 0xDC00) + 0x10000
  }

  /** Splitting a supplementary code point and combining the pair gives it back. */
  lemma SplitThenCombine(c: int)
    requires 0x10000 <= c <= 0x10FFFF
    ensures CombineSurrogates(SurrogatePair(c).0, SurrogatePair(c).1) == c
  {
  }

  /** Combining a surrogate pair and splitting the result gives the pair back. */
  lemma CombineThenSplit(high: int, low: int)
    requires IsHighSurrogate(high) && IsLowSurrogate(low)
    ensures SurrogatePair(CombineSurrogates(high, low)) == (high, low)
  {
  }

  /** Number of supplementary code points in `cps`. */
  function SupplementaryCount(cps: seq<int>): (n: nat)
    ensures n <= |cps|
    ensures n == 0 <==> AllBmp(cps)
  {
    if cps == [] then 0
    else (if IsSupplementary(cps[0]) then 1 else 0) + SupplementaryCount(cps[1..])
  }

  /** The UTF-16 units of one scalar value. */
  function EncodeScalar(c: int): (units: seq<Char>)
    requires IsScalar(c)
  {
    if c <= 0xFFFF then [c]
    else [SurrogatePair(c).0, SurrogatePair(c).1]
  }

  /** The intended emission stage: each code point as one unit, or as its
      surrogate pair when it is above U+FFFF. */
  function EncodeUtf16(cps: seq<int>): (units: seq<Char>)
    requires AllScalar(cps)
    ensures |units| == |cps| + SupplementaryCount(cps)
  {
    if cps == [] then [] else EncodeScalar(cps[0]) + EncodeUtf16(cps[1..])
  }

  /** A strict UTF-16 decoder: a high surrogate must be followed by a low one,
      and a low surrogate may not stand alone. */
  function DecodeUtf16(units: seq<Char>): Option<seq<int>>
    decreases |units|
  {
    if units == [] then Some([])
    else if IsLowSurrogate(units[0]) then None
    else if IsHighSurrogate(units[0]) then
      if |units| >= 2 && IsLowSurrogate(units[1]) then
        match DecodeUtf16(units[2..])
        case None => None
        case Some(rest) => Some([CombineSurrogates(units[0], units[1])] + rest)
      else None
    else
      match DecodeUtf16(units[1..])
      case None => None
      case Some(rest) => Some([units[0] as int] + rest)
  }

  /** In the Basic Multilingual Plane the emission is the identity. */
  lemma {:induction false} EncodeUtf16Bmp(cps: seq<int>)
    requires AllScalar(cps) && AllBmp(cps)
    ensures EncodeUtf16(cps) == cps
  {
    if cps != [] {
      EncodeUtf16Bmp(cps[1..]);
    }
  }

  /** Every emitted unit is a surrogate exactly when it belongs to a pair:
      decoding the emitted units as UTF-16 gives the code points back. */
  lemma {:induction false} Utf16RoundTrip(cps: seq<int>)
    requires AllScalar(cps)
    ensures DecodeUtf16(EncodeUtf16(cps)) == Some(cps)
  {
    if cps != [] {
      var c := cps[0];
      var tail := EncodeUtf16(cps[1..]);
      Utf16RoundTrip(cps[1..]);
      var units := EncodeScalar(c) + tail;
      assert EncodeUtf16(cps) == units;
      if c <= 0xFFFF {
        assert units[1..] == tail;
      } else {
        SplitThenCombine(c);
        assert units[2..] == tail;
      }
      assert [c] + cps[1..] == cps;
    }
  }

  /**
   * The counting loop of lines 164-172 exactly as written: its bound `length`
   * grows inside the loop while `i` still indexes `unicode`. `None` means the
   * loop reads `unicode[i]` with `i == |unicode|`, past the end of the array.
   */
  function CountUnitsAsWritten(unicode: seq<int>, i: nat, length: nat): (r: Option<nat>)
    ensures r.Some? ==> length <= r.value
    ensures r.Some? && i < length ==> r.value <= |unicode|
    decreases |unicode| - i
  {
    if i >= length then Some(length)
    else if i >= |unicode| then None
    else CountUnitsAsWritten(unicode, i + 1, if IsSupplementary(unicode[i]) then length + 1 else length)
  }

  lemma {:induction false} SupplementaryCountSnoc(cps: seq<int>, c: int)
    ensures SupplementaryCount(cps + [c]) == SupplementaryCount(cps) + (if IsSupplementary(c) then 1 else 0)
  {
    if cps != [] {
      assert (cps + [c])[1..] == cps[1..] + [c];
      SupplementaryCountSnoc(cps[1..], c);
    }
  }

  lemma {:induction false} CountUnitsAsWrittenFrom(unicode: seq<int>, i: nat)
    requires i <= |unicode|
    ensures CountUnitsAsWritten(unicode, i, |unicode| + SupplementaryCount(unicode[..i]))
         == if AllBmp(unicode) then Some(|unicode|) else None
    decreases |unicode| - i
  {
    var length := |unicode| + SupplementaryCount(unicode[..i]);
    if i == |unicode| {
      assert unicode[..i] == unicode;
    } else {
      assert unicode[..i + 1] == unicode[..i] + [unicode[i]];
      SupplementaryCountSnoc(unicode[..i], unicode[i]);
      CountUnitsAsWrittenFrom(unicode, i + 1);
    }
  }

  /** As written, the counting loop yields |unicode| when every code point is
      in the Basic Multilingual Plane, and otherwise reads past `unicode`. */
  lemma CountUnitsAsWrittenOverruns(unicode: seq<int>)
    ensures CountUnitsAsWritten(unicode, 0, |unicode|) == if AllBmp(unicode) then Some(|unicode|) else None
  {
    assert unicode[..0] == [];
    CountUnitsAsWrittenFrom(unicode, 0);
  }

  /**
   * The counting loop as evidently intended: one unit per code point plus one
   * per surrogate pair, with the loop bound fixed at the number of code points.
   */
  method CountUnits(unicode: seq<int>) returns (length: nat)
    ensures length == |unicode| + SupplementaryCount(unicode)
    ensures AllScalar(unicode) ==> length == |EncodeUtf16(unicode)|
  {
    length := |unicode|;
    var i := 0;
    while i < |unicode|
      invariant 0 <= i <= |unicode|
      invariant length == |unicode| + SupplementaryCount(unicode[..i])
    {
      assert unicode[..i + 1] == unicode[..i] + [unicode[i]];
      SupplementaryCountSnoc(unicode[..i], unicode[i]);
      if IsSupplementary(unicode[i]) {
        length := length + 1;
      }
      i := i + 1;
    }
    assert unicode[..i] == unicode;
  }
}
