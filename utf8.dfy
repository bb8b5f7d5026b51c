/**
 * StringUtils::ConvertUTF82UTF16: a validating pass over UTF-8 bytes
 * (section 3 of RFC 3629, as permissive as the engine is) that collects code
 * points, followed by the emission of UTF-16 units into the caller's buffer.
 */
module Utf8 {
  import opened Utf16

  /** An 8-bit unit of the input. */
  type byte = x: int | 0 <= x < 0x100

  /** The four ways the engine rejects its input (each logs "Not a UTF-8 string."). */
  datatype DecodeError =
    | InvalidLead          // a lead byte in 0x80-0xBF or 0xF8-0xFF
    | Truncated            // the input ends inside a multi-byte sequence
    | InvalidContinuation  // a continuation byte outside 0x80-0xBF
    | InvalidCodePoint     // a surrogate or a value above 0x10FFFF

  datatype Result<T> = Ok(value: T) | Err(error: DecodeError)

  /** Prefixes the code points `a` to a successful result. */
  function Prepend(a: seq<int>, r: Result<seq<int>>): Result<seq<int>> {
    match r
    case Ok(v) => Ok(a + v)
    case Err(e) => Err(e)
  }

  predicate IsContinuation(b: byte) {
    0x80 <= b <= 0xBF
  }

  /** The lead-byte classification: the payload bits the lead byte carries
      (`ch & 0x1F`, `ch & 0x0F`, `ch & 0x07`) and how many continuation bytes
      follow it. */
  function Lead(b: byte): (r: Result<(int, nat)>)
    ensures r.Err? <==> (0x80 <= b <= 0xBF || b >= 0xF8)
    ensures r.Err? ==> r.error == InvalidLead
    ensures r.Ok? ==> 0 <= r.value.0 < 0x80 && r.value.1 <= 3
    ensures r.Ok? ==> (r.value.1 == 0 <==> b <= 0x7F)
  {
    if b <= 0x7F then Ok((b, 0))
    else if b <= 0xBF then Err(InvalidLead)
    else if b <= 0xDF then Ok((b % 0x20, 1))
    else if b <= 0xEF then Ok((b % 0x10, 2))
    else if b <= 0xF7 then Ok((b % 0x08, 3))
    else Err(InvalidLead)
  }

  /** The value built from `uni` by appending the low six bits of each byte of `conts`. */
  function Accumulate(uni: int, conts: seq<byte>): int
    decreases |conts|
  {
    if conts == [] then uni else Accumulate(uni * 64 + conts[0] % 64, conts[1..])
  }

  /** The continuation loop of lines 137-153, reading from index `i` of `s`:
      `todo` bytes, each of which must be a continuation byte; on success the
      value and the index after them. */
  function Continue(s: seq<byte>, i: nat, todo: nat, uni: int): (r: Result<(int, nat)>)
    requires i <= |s|
    ensures r.Ok? ==> r.value.1 == i + todo <= |s|
    ensures r.Ok? && uni >= 0 ==> r.value.0 >= 0
    decreases todo
  {
    if todo == 0 then Ok((uni, i))
    else if i == |s| then Err(Truncated)
    else if !IsContinuation(s[i]) then Err(InvalidContinuation)
    else Continue(s, i + 1, todo - 1, uni * 64 + s[i] % 0x40)
  }

  /** Decodes the sequence that starts at index `i`: its code point and the
      index after it. */
  function DecodeAt(s: seq<byte>, i: nat): (r: Result<(int, nat)>)
    requires i < |s|
    ensures r.Ok? ==> i < r.value.1 <= |s| && IsScalar(r.value.0)
  {
    match Lead(s[i])
    case Err(e) => Err(e)
    case Ok((bits, todo)) =>
      match Continue(s, i + 1, todo, bits)
      case Err(e) => Err(e)
      case Ok((uni, next)) =>
        if (0xD800 <= uni <= 0xDFFF) || uni > 0x10FFFF then Err(InvalidCodePoint)
        else Ok((uni, next))
  }

  /** The code points of `s` from index `i` on, or the first error met. */
  function DecodeFrom(s: seq<byte>, i: nat): Result<seq<int>>
    requires i <= |s|
    decreases |s| - i
  {
    if i == |s| then Ok([])
    else
      match DecodeAt(s, i)
      case Err(e) => Err(e)
      case Ok((c, next)) => Prepend([c], DecodeFrom(s, next))
  }

  /** The validating pass of lines 97-162: the code points of `s`, or the
      first error met. */
  function Decode(s: seq<byte>): (r: Result<seq<int>>)
    ensures r.Ok? ==> AllScalar(r.value) && |r.value| <= |s|
  {
    DecodeFromScalar(s, 0);
    DecodeFrom(s, 0)
  }

  /** On success every collected code point is a Unicode scalar value, and
      there are no more code points than bytes. */
  lemma {:induction false} DecodeFromScalar(s: seq<byte>, i: nat)
    requires i <= |s|
    ensures DecodeFrom(s, i).Ok? ==> AllScalar(DecodeFrom(s, i).value) && |DecodeFrom(s, i).value| <= |s| - i
    decreases |s| - i
  {
    if i < |s| && DecodeAt(s, i).Ok? {
      DecodeFromScalar(s, DecodeAt(s, i).value.1);
    }
  }

  /** One turn of the continuation loop at index `i`. */
  lemma ContinueStep(s: seq<byte>, i: nat, todo: nat, uni: int)
    requires i < |s| && todo > 0
    ensures Continue(s, i, todo, uni)
         == if IsContinuation(s[i]) then Continue(s, i + 1, todo - 1, uni * 64 + s[i] % 0x40) else Err(InvalidContinuation)
  {
  }

  /** Decoding the sequence at `start` fails, so the whole decode fails. */
  lemma DecodeFailsAt(from: seq<byte>, unicode: seq<int>, start: nat)
    requires start < |from|
    requires Decode(from) == Prepend(unicode, DecodeFrom(from, start))
    requires DecodeAt(from, start).Err?
    ensures Decode(from).Err?
  {
  }

  /** The sequence at `start` decodes to `c` and ends at `next`. */
  lemma DecodeAdvances(from: seq<byte>, unicode: seq<int>, start: nat, c: int, next: nat)
    requires start < next <= |from|
    requires Decode(from) == Prepend(unicode, DecodeFrom(from, start))
    requires DecodeAt(from, start) == Ok((c, next))
    ensures Decode(from) == Prepend(unicode + [c], DecodeFrom(from, next))
  {
    match DecodeFrom(from, next)
    case Err(e) =>
    case Ok(v) => assert unicode + ([c] + v) == (unicode + [c]) + v;
  }

  // ---------------------------------------------------------------------
  // Properties of the validating pass
  // ---------------------------------------------------------------------

  /** Moves a continuation result `n` positions to the right. */
  function ShiftIndex(r: Result<(int, nat)>, n: nat): Result<(int, nat)> {
    match r
    case Ok((v, next)) => Ok((v, next + n))
    case Err(e) => Err(e)
  }

  lemma {:induction false} ContinueShift(p: seq<byte>, q: seq<byte>, i: nat, todo: nat, uni: int)
    requires i <= |q|
    ensures Continue(p + q, |p| + i, todo, uni) == ShiftIndex(Continue(q, i, todo, uni), |p|)
    decreases todo
  {
    if todo > 0 && i < |q| {
      assert (p + q)[|p| + i] == q[i];
      ContinueShift(p, q, i + 1, todo - 1, uni * 64 + q[i] % 0x40);
    }
  }

  lemma DecodeAtShift(p: seq<byte>, q: seq<byte>, i: nat)
    requires i < |q|
    ensures DecodeAt(p + q, |p| + i) == ShiftIndex(DecodeAt(q, i), |p|)
  {
    assert (p + q)[|p| + i] == q[i];
    match Lead(q[i])
    case Err(_) =>
    case Ok((bits, todo)) => ContinueShift(p, q, i + 1, todo, bits);
  }

  /** Decoding does not depend on the bytes before the current position. */
  lemma {:induction false} DecodeFromShift(p: seq<byte>, q: seq<byte>, i: nat)
    requires i <= |q|
    ensures DecodeFrom(p + q, |p| + i) == DecodeFrom(q, i)
    decreases |q| - i
  {
    var s, j := p + q, |p| + i;
    if i == |q| {
      assert j == |s|;
    } else {
      DecodeAtShift(p, q, i);
      match DecodeAt(q, i)
      case Err(e) =>
        assert DecodeAt(s, j) == Err(e);
      case Ok((c, next)) =>
        assert DecodeAt(s, j) == Ok((c, |p| + next));
        DecodeFromShift(p, q, next);
    }
  }

  lemma {:induction false} ContinueExtend(p: seq<byte>, q: seq<byte>, i: nat, todo: nat, uni: int)
    requires i <= |p| && Continue(p, i, todo, uni).Ok?
    ensures Continue(p + q, i, todo, uni) == Continue(p, i, todo, uni)
    decreases todo
  {
    if todo > 0 {
      assert (p + q)[i] == p[i];
      ContinueExtend(p, q, i + 1, todo - 1, uni * 64 + p[i] % 0x40);
    }
  }

  lemma DecodeAtExtend(p: seq<byte>, q: seq<byte>, i: nat)
    requires i < |p| && DecodeAt(p, i).Ok?
    ensures DecodeAt(p + q, i) == DecodeAt(p, i)
  {
    assert (p + q)[i] == p[i];
    var (bits, todo) := Lead(p[i]).value;
    ContinueExtend(p, q, i + 1, todo, bits);
  }

  /** A well-formed prefix decodes the same whatever follows it. */
  lemma {:induction false} DecodeFromExtend(p: seq<byte>, q: seq<byte>, i: nat)
    requires i <= |p| && DecodeFrom(p, i).Ok?
    ensures DecodeFrom(p + q, i) == Prepend(DecodeFrom(p, i).value, DecodeFrom(p + q, |p|))
    decreases |p| - i
  {
    if i == |p| {
      match DecodeFrom(p + q, |p|)
      case Err(_) =>
      case Ok(v) => assert [] + v == v;
    } else {
      DecodeAtExtend(p, q, i);
      var (c, next) := DecodeAt(p, i).value;
      DecodeFromExtend(p, q, next);
      var rest := DecodeFrom(p, next).value;
      match DecodeFrom(p + q, |p|)
      case Err(_) =>
      case Ok(v) => assert [c] + (rest + v) == ([c] + rest) + v;
    }
  }

  /** Decoding a concatenation whose first part is well formed decodes the
      parts one after the other. */
  lemma DecodeAppend(p: seq<byte>, q: seq<byte>)
    requires Decode(p).Ok?
    ensures Decode(p + q) == Prepend(Decode(p).value, Decode(q))
  {
    DecodeFromExtend(p, q, 0);
    DecodeFromShift(p, q, 0);
  }

  predicate AllContinuation(conts: seq<byte>) {
    forall k | 0 <= k < |conts| :: IsContinuation(conts[k])
  }

  /** Continuation bytes are read one after another from index `i`. */
  lemma {:induction false} ContinueReads(s: seq<byte>, i: nat, todo: nat, uni: int, n: nat)
    requires i + n <= |s| && n <= todo && AllContinuation(s[i..i + n])
    ensures Continue(s, i, todo, uni) == Continue(s, i + n, todo - n, Accumulate(uni, s[i..i + n]))
    decreases n
  {
    if n > 0 {
      assert s[i..i + n][0] == s[i];
      assert s[i..i + n][1..] == s[i + 1..i + n];
      var u, t := s[i..i + n], s[i + 1..i + n];
      forall k | 0 <= k < |t| ensures IsContinuation(t[k]) {
        assert t[k] == u[k + 1];
      }
      ContinueReads(s, i + 1, todo - 1, uni * 64 + s[i] % 0x40, n - 1);
    }
  }

  /** Decoding fails at a lead byte in 0x80-0xBF or 0xF8-0xFF, whatever
      precedes it (as long as that decodes) and whatever follows it. */
  lemma InvalidLeadFails(prefix: seq<byte>, b: byte, rest: seq<byte>)
    requires Decode(prefix).Ok?
    requires 0x80 <= b <= 0xBF || b >= 0xF8
    ensures Decode(prefix + ([b] + rest)) == Err(InvalidLead)
  {
    DecodeAppend(prefix, [b] + rest);
  }

  /** Decoding fails when the input ends before all continuation bytes the
      lead byte announces have been read. */
  lemma TruncatedFails(prefix: seq<byte>, lead: byte, conts: seq<byte>)
    requires Decode(prefix).Ok?
    requires Lead(lead).Ok? && |conts| < Lead(lead).value.1 && AllContinuation(conts)
    ensures Decode(prefix + ([lead] + conts)) == Err(Truncated)
  {
    var t := [lead] + conts;
    DecodeAppend(prefix, t);
    var (bits, todo) := Lead(lead).value;
    assert t[1..1 + |conts|] == conts;
    ContinueReads(t, 1, todo, bits, |conts|);
  }

  /** Decoding fails at a byte outside 0x80-0xBF where a continuation byte is
      expected. */
  lemma InvalidContinuationFails(prefix: seq<byte>, lead: byte, conts: seq<byte>, b: byte, rest: seq<byte>)
    requires Decode(prefix).Ok?
    requires Lead(lead).Ok? && |conts| < Lead(lead).value.1 && AllContinuation(conts)
    requires !IsContinuation(b)
    ensures Decode(prefix + ([lead] + conts + [b] + rest)) == Err(InvalidContinuation)
  {
    var t := [lead] + conts + [b] + rest;
    DecodeAppend(prefix, t);
    var (bits, todo) := Lead(lead).value;
    assert t[1..1 + |conts|] == conts;
    assert t[1 + |conts|] == b;
    ContinueReads(t, 1, todo, bits, |conts|);
  }

  /** A complete sequence: its value is the lead byte's payload followed by six
      bits of each continuation byte, and it is rejected exactly when that
      value is a surrogate or above 0x10FFFF. */
  lemma DecodeSequence(lead: byte, conts: seq<byte>, rest: seq<byte>)
    requires Lead(lead).Ok? && |conts| == Lead(lead).value.1 && AllContinuation(conts)
    ensures var v := Accumulate(Lead(lead).value.0, conts);
      Decode([lead] + conts + rest) == if IsScalar(v) then Prepend([v], Decode(rest)) else Err(InvalidCodePoint)
  {
    var t := [lead] + conts + rest;
    var (bits, todo) := Lead(lead).value;
    assert t[1..1 + |conts|] == conts;
    ContinueReads(t, 1, todo, bits, |conts|);
    assert Continue(t, 1 + todo, 0, Accumulate(bits, conts)) == Ok((Accumulate(bits, conts), 1 + todo));
    AccumulateNonNegative(bits, conts);
    assert t == [lead] + conts + rest;
    assert t[1 + todo..] == rest;
    DecodeFromShift([lead] + conts, rest, 0);
    assert [lead] + conts + rest == ([lead] + conts) + rest;
  }

  lemma {:induction false} AccumulateNonNegative(uni: int, conts: seq<byte>)
    requires uni >= 0
    ensures Accumulate(uni, conts) >= 0
    decreases |conts|
  {
    if conts != [] {
      AccumulateNonNegative(uni * 64 + conts[0] % 0x40, conts[1..]);
    }
  }

  /** Decoding fails at a complete sequence whose value is a surrogate or is
      above 0x10FFFF. */
  lemma InvalidCodePointFails(prefix: seq<byte>, lead: byte, conts: seq<byte>, rest: seq<byte>)
    requires Decode(prefix).Ok?
    requires Lead(lead).Ok? && |conts| == Lead(lead).value.1 && AllContinuation(conts)
    requires !IsScalar(Accumulate(Lead(lead).value.0, conts))
    ensures Decode(prefix + ([lead] + conts + rest)) == Err(InvalidCodePoint)
  {
    DecodeAppend(prefix, [lead] + conts + rest);
    DecodeSequence(lead, conts, rest);
  }

  /** ASCII input decodes to itself, byte for byte. */
  lemma {:induction false} DecodeAscii(s: seq<byte>)
    requires forall k | 0 <= k < |s| :: s[k] <= 0x7F
    ensures Decode(s) == Ok(s)
  {
    if s != [] {
      var rest := s[1..];
      forall k | 0 <= k < |rest| ensures rest[k] <= 0x7F {
        assert rest[k] == s[k + 1];
      }
      DecodeAscii(rest);
      DecodeSequence(s[0], [], rest);
      assert [s[0]] + [] + rest == s;
      assert [s[0]] + rest == s;
    }
  }

  /** Overlong forms are accepted: C0 80 decodes to U+0000, as does 00. */
  lemma OverlongAccepted()
    ensures Decode([0xC0, 0x80]) == Ok([0]) && Decode([0x00]) == Ok([0])
  {
    DecodeSequence(0xC0, [0x80], []);
    assert [0xC0] + [0x80] + [] == [0xC0, 0x80];
    DecodeAscii([0x00]);
  }

  /** Lead bytes F5-F7 pass the lead-byte check and are rejected only by the
      range check, since their value is at least 0x140000. */
  lemma F5ToF7Rejected(lead: byte, conts: seq<byte>, rest: seq<byte>)
    requires 0xF5 <= lead <= 0xF7 && |conts| == 3 && AllContinuation(conts)
    ensures Lead(lead).Ok?
    ensures Decode([lead] + conts + rest) == Err(InvalidCodePoint)
  {
    var bits := lead % 0x08;
    assert bits >= 5;
    var a := Accumulate(bits, conts);
    var a1 := bits * 64 + conts[0] % 64;
    var a2 := a1 * 64 + conts[1] % 64;
    var a3 := a2 * 64 + conts[2] % 64;
    assert conts[1..][0] == conts[1] && conts[1..][1..][0] == conts[2];
    assert conts[1..][1..][1..] == [];
    assert Accumulate(a3, []) == a3;
    assert Accumulate(a2, conts[1..][1..]) == a3;
    assert Accumulate(a1, conts[1..]) == a3;
    assert a == a3;
    assert a >= bits * 262144;
    DecodeSequence(lead, conts, rest);
  }

  // ---------------------------------------------------------------------
  // A reference encoder: every scalar value in its shortest form
  // ---------------------------------------------------------------------

  /** `c` without its `n` low six-bit groups: the bits a lead byte carries. */
  function High(c: nat, n: nat): nat
    decreases n
  {
    if n == 0 then c else High(c / 0x40, n - 1)
  }

  /** The `n` continuation bytes carrying the low six-bit groups of `c`,
      most significant first. */
  function Trailing(c: nat, n: nat): (b: seq<byte>)
    ensures |b| == n && AllContinuation(b)
    decreases n
  {
    if n == 0 then [] else Trailing(c / 0x40, n - 1) + [0x80 + c % 0x40]
  }

  /** Every scalar value in its shortest form: one byte below 0x80, then a
      lead byte 110xxxxx, 1110xxxx or 11110xxx and one to three continuation
      bytes. */
  function EncodeScalarUtf8(c: int): (b: seq<byte>)
    requires IsScalar(c)
    ensures 1 <= |b| <= 4
  {
    if c < 0x80 then [c]
    else if c < 0x800 then [0xC0 + High(c, 1)] + Trailing(c, 1)
    else if c < 0x10000 then [0xE0 + High(c, 2)] + Trailing(c, 2)
    else [0xF0 + High(c, 3)] + Trailing(c, 3)
  }

  function EncodeUtf8(cps: seq<int>): seq<byte>
    requires AllScalar(cps)
  {
    if cps == [] then [] else EncodeScalarUtf8(cps[0]) + EncodeUtf8(cps[1..])
  }

  /** Appending a byte to the continuation bytes appends its six bits. */
  lemma {:induction false} AccumulateSnoc(uni: int, conts: seq<byte>, b: byte)
    ensures Accumulate(uni, conts + [b]) == Accumulate(uni, conts) * 64 + b % 64
    decreases |conts|
  {
    if conts == [] {
      assert [] + [b] == [b];
    } else {
      assert (conts + [b])[1..] == conts[1..] + [b];
      AccumulateSnoc(uni * 64 + conts[0] % 64, conts[1..], b);
    }
  }

  /** The lead byte's bits followed by the trailing groups give `c` back. */
  lemma {:induction false} TrailingValue(c: nat, n: nat)
    ensures Accumulate(High(c, n), Trailing(c, n)) == c
    decreases n
  {
    if n > 0 {
      TrailingValue(c / 0x40, n - 1);
      AccumulateSnoc(High(c / 0x40, n - 1), Trailing(c / 0x40, n - 1), 0x80 + c % 0x40);
    }
  }

  lemma EncodeScalarDecodes(c: int, rest: seq<byte>)
    requires IsScalar(c)
    ensures Decode(EncodeScalarUtf8(c) + rest) == Prepend([c], Decode(rest))
  {
    if c < 0x80 {
      DecodeSequence(c, [], rest);
      assert [c] + [] + rest == EncodeScalarUtf8(c) + rest;
    } else {
      MultiByteDecodes(c, rest);
    }
  }

  /** The two-, three- and four-byte forms of EncodeScalarDecodes. */
  lemma MultiByteDecodes(c: int, rest: seq<byte>)
    requires IsScalar(c) && 0x80 <= c
    ensures Decode(EncodeScalarUtf8(c) + rest) == Prepend([c], Decode(rest))
  {
    var e := EncodeScalarUtf8(c);
    var n := if c < 0x800 then 1 else if c < 0x10000 then 2 else 3;
    LeadOf(c, n);
    var lead: byte, conts := LeadBase(n) + High(c, n), Trailing(c, n);
    assert e == [lead] + conts;
    assert e + rest == [lead] + conts + rest;
    TrailingValue(c, n);
    assert Accumulate(Lead(lead).value.0, conts) == c;
    DecodeSequence(lead, conts, rest);
  }

  /** The lead byte of a multi-byte form: 110xxxxx, 1110xxxx or 11110xxx. */
  function LeadBase(n: nat): int {
    if n == 1 then 0xC0 else if n == 2 then 0xE0 else 0xF0
  }

  /** The lead byte of a multi-byte form announces `n` continuation bytes. */
  lemma LeadOf(c: nat, n: nat)
    requires 1 <= n <= 3 && c < 0x110000
    requires n == 1 ==> 0x80 <= c < 0x800
    requires n == 2 ==> 0x800 <= c < 0x10000
    requires n == 3 ==> 0x10000 <= c
    ensures LeadBase(n) + High(c, n) < 0x100 && Lead(LeadBase(n) + High(c, n)) == Ok((High(c, n), n))
  {
    var h := High(c, n);
    if n == 1 {
      assert h == c / 0x40;
      LeadPayload(0xC0, 0x20, h, 1);
    } else if n == 2 {
      assert h == c / 0x40 / 0x40;
      LeadPayload(0xE0, 0x10, h, 2);
    } else {
      assert h == c / 0x40 / 0x40 / 0x40;
      LeadPayload(0xF0, 0x08, h, 3);
    }
  }

  lemma LeadPayload(base: int, limit: int, h: int, n: nat)
    requires (base, limit, n) in {(0xC0, 0x20, 1), (0xE0, 0x10, 2), (0xF0, 0x08, 3)}
    requires 0 <= h < limit
    ensures base + h < 0x100 && Lead(base + h) == Ok((h, n))
  {
    assert (base + h) % limit == h;
  }

  /** Decoding the shortest-form encoding of scalar values gives them back. */
  lemma {:induction false} Utf8RoundTrip(cps: seq<int>)
    requires AllScalar(cps)
    ensures Decode(EncodeUtf8(cps)) == Ok(cps)
  {
    if cps != [] {
      var tail := cps[1..];
      assert AllScalar(tail) by {
        forall k | 0 <= k < |tail| ensures IsScalar(tail[k]) {
          assert tail[k] == cps[k + 1];
        }
      }
      Utf8RoundTrip(tail);
      EncodeScalarDecodes(cps[0], EncodeUtf8(tail));
      assert [cps[0]] + tail == cps;
    }
  }

  /**
   * U+1F600 as F0 9F 98 80 passes the validating pass, after which the
   * counting loop as written reads past the one-element array of code points.
   */
  lemma SupplementaryOverrunsCount()
    ensures Decode([0xF0, 0x9F, 0x98, 0x80]) == Ok([0x1F600])
    ensures CountUnitsAsWritten([0x1F600], 0, 1).None?
  {
    var c: int := 0x1F600;
    assert Trailing(0x1F, 1) == [0x9F] by {
      assert Trailing(0, 0) == [];
    }
    assert Trailing(0x7D8, 2) == [0x9F, 0x98];
    assert Trailing(c, 3) == [0x9F, 0x98, 0x80];
    assert High(c, 3) == 0;
    assert EncodeScalarUtf8(c) + [] == [0xF0, 0x9F, 0x98, 0x80];
    assert Decode([]) == Ok([]);
    EncodeScalarDecodes(c, []);
    assert [c] + [] == [0x1F600];
    CountUnitsAsWrittenOverruns([0x1F600]);
    assert IsSupplementary([0x1F600][0]);
  }

  // ---------------------------------------------------------------------
  // The decoder itself
  // ---------------------------------------------------------------------

  /**
   * The continuation loop of lines 137-153: reads `todo` continuation bytes
   * of `from` from index `start` on, appending their low six bits to `bits`.
   * `ok` is false where the input ends or a byte is not a continuation byte.
   */
  method ReadContinuations(from: seq<byte>, start: nat, todo: nat, bits: int) returns (ok: bool, uni: int, i: nat)
    requires start <= |from|
    ensures ok <==> Continue(from, start, todo, bits).Ok?
    ensures ok ==> Continue(from, start, todo, bits).value == (uni, i)
  {
    uni, i := bits, start;
    var j := 0;
    while j < todo
      invariant 0 <= j <= todo && i == start + j <= |from|
      invariant Continue(from, start, todo, bits) == Continue(from, i, todo - j, uni)
    {
      if i == |from| {
        return false, uni, i;
      }
      ContinueStep(from, i, todo - j, uni);
      var ch := from[i];
      i := i + 1;
      if ch < 0x80 || ch > 0xBF {
        return false, uni, i;
      }
      uni := uni * 64 + ch % 0x40;
      j := j + 1;
    }
    ok := true;
  }

  /**
   * One turn of the loop of lines 99-161: classifies the lead byte at
   * `start`, reads its continuation bytes and checks the value. On success
   * `uni` is the code point and `i` the index after the sequence.
   */
  method ReadSequence(from: seq<byte>, start: nat) returns (ok: bool, uni: int, i: nat)
    requires start < |from|
    ensures ok <==> DecodeAt(from, start).Ok?
    ensures ok ==> DecodeAt(from, start).value == (uni, i)
  {
    var ch := from[start];
    i := start + 1;
    var todo: nat;
    match Lead(ch) {
      case Err(_) =>
        return false, 0, i;
      case Ok((u, t)) =>
        uni, todo := u, t;
    }
    var read;
    read, uni, i := ReadContinuations(from, i, todo, uni);
    if !read {
      return false, uni, i;
    }
    if (0xD800 <= uni <= 0xDFFF) || uni > 0x10FFFF {
      return false, uni, i;
    }
    ok := true;
  }

  /**
   * The validating pass of lines 97-162: walks `from` once, classifying each
   * lead byte, reading its continuation bytes and checking the value, and
   * collects the code points. `ok` is false where the engine logs
   * "Not a UTF-8 string." and returns.
   */
  method CollectCodePoints(from: seq<byte>) returns (ok: bool, unicode: seq<int>)
    ensures ok <==> Decode(from).Ok?
    ensures ok ==> unicode == Decode(from).value
  {
    unicode := [];
    var i := 0;
    assert Decode(from) == Prepend(unicode, DecodeFrom(from, i)) by {
      match Decode(from) {
        case Err(e) =>
        case Ok(v) => assert [] + v == v;
      }
    }
    while i < |from|
      invariant 0 <= i <= |from|
      invariant Decode(from) == Prepend(unicode, DecodeFrom(from, i))
    {
      var read, uni, next := ReadSequence(from, i);
      if !read {
        DecodeFailsAt(from, unicode, i);
        return false, unicode;
      }
      DecodeAdvances(from, unicode, i, uni, next);
      unicode := unicode + [uni];
      i := next;
    }
    ok := true;
  }

  /**
   * Lines 95-190. `from` is the input of `fromLength == |from|` bytes, `to`
   * the caller's buffer and the result the value stored in `*toLength`
   * (0 on failure, and then nothing is written to `to`). The emission is
   * modelled only where every decoded code point is at most U+FFFF: above it
   * the engine's loops read past the intermediate array.
   */
  method ConvertUtf8ToUtf16(from: seq<byte>, to: array<Char>) returns (toLength: nat)
    requires Decode(from).Ok? ==> AllBmp(Decode(from).value) && |Decode(from).value| <= to.Length
    modifies to
    ensures Decode(from).Err? ==> toLength == 0 && to[..] == old(to[..])
    ensures Decode(from).Ok? ==> toLength == |Decode(from).value|
    ensures Decode(from).Ok? ==> AllScalar(Decode(from).value) && to[..toLength] == EncodeUtf16(Decode(from).value)
    ensures Decode(from).Ok? ==> to[toLength..] == old(to[toLength..])
  {
    toLength := 0;
    var ok, unicode := CollectCodePoints(from);
    if !ok {
      return;
    }

    // Lines 164-172: count the units, with the loop bound kept fixed.
    var length := CountUnits(unicode);
    var i;

    // Lines 174-189: copy the code points.
    toLength := length;
    i := 0;
    while i < length
      invariant 0 <= i <= length == |unicode| <= to.Length
      invariant to[..i] == unicode[..i]
      invariant to[length..] == old(to[length..])
    {
      var u := unicode[i];
      if u <= 0xFFFF {
        to[i] := u;
      } else {
        assert false;
      }
      i := i + 1;
    }
    assert to[..length] == unicode;
    EncodeUtf16Bmp(unicode);
  }
}
