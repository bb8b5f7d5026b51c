/**
 * The digit pair table `digit_pairs` that StringUtils::ToString copies two
 * characters at a time from: "00", "01", ..., "99" in one literal.
 */
module DigitPairs {

  function DigitChar(d: int): (c: char)
    requires 0 <= d < 10
    ensures '0' <= c <= '9'
  {
    ('0' as int + d) as char
  }

  /** The ten 20-character rows of the table's literal; the terminating NUL
      that makes it 201 characters is never read. */
  const DigitPairRows: seq<string> := [
    "00010203040506070809",
    "10111213141516171819",
    "20212223242526272829",
    "30313233343536373839",
    "40414243444546474849",
    "50515253545556575859",
    "60616263646566676869",
    "70717273747576777879",
    "80818283848586878889",
    "90919293949596979899"
  ]


  predicate RowOk(row: string, r: int)
    requires 0 <= r < 10
  {
    |row| == 20 && forall j | 0 <= j < 10 :: row[2 * j] == DigitChar(r) && row[2 * j + 1] == DigitChar(j)
  }

  /** Row r of the literal spells r0, r1, ..., r9; one lemma per row keeps each
      proof small. */
  lemma Row0Ok() ensures RowOk(DigitPairRows[0], 0) { }
  lemma Row1Ok() ensures RowOk(DigitPairRows[1], 1) { }
  lemma Row2Ok() ensures RowOk(DigitPairRows[2], 2) { }
  lemma Row3Ok() ensures RowOk(DigitPairRows[3], 3) { }
  lemma Row4Ok() ensures RowOk(DigitPairRows[4], 4) { }
  lemma Row5Ok() ensures RowOk(DigitPairRows[5], 5) { }
  lemma Row6Ok() ensures RowOk(DigitPairRows[6], 6) { }
  lemma Row7Ok() ensures RowOk(DigitPairRows[7], 7) { }
  lemma Row8Ok() ensures RowOk(DigitPairRows[8], 8) { }
  lemma Row9Ok() ensures RowOk(DigitPairRows[9], 9) { }

  lemma RowAt(r: int)
    requires 0 <= r < 10
    ensures RowOk(DigitPairRows[r], r)
  {
    if r == 0 { Row0Ok(); } else if r == 1 { Row1Ok(); } else if r == 2 { Row2Ok(); }
    else if r == 3 { Row3Ok(); } else if r == 4 { Row4Ok(); } else if r == 5 { Row5Ok(); }
    else if r == 6 { Row6Ok(); } else if r == 7 { Row7Ok(); } else if r == 8 { Row8Ok(); }
    else { Row9Ok(); }
  }

  /** Every character of a row is a decimal digit. */
  lemma RowDigit(row: string, r: int, j: int)
    requires 0 <= r < 10 && RowOk(row, r) && 0 <= j < 20
    ensures '0' <= row[j] <= '9'
  {
    var h := j / 2;
    assert j == 2 * h || j == 2 * h + 1;
    assert row[2 * h] == DigitChar(r) && row[2 * h + 1] == DigitChar(h);
  }

  /** digit_pairs[i]: every character of the table is a decimal digit. */
  function TableChar(i: int): (c: char)
    requires 0 <= i < 200
    ensures '0' <= c <= '9'
  {
    var row := DigitPairRows[i / 20];
    RowAt(i / 20);
    RowDigit(row, i / 20, i % 20);
    row[i % 20]
  }

  /** Where characters 2k and 2k + 1 sit: row k / 10, columns 2 (k % 10) and
      2 (k % 10) + 1. */
  lemma PairPosition(k: int)
    requires 0 <= k < 100
    ensures (2 * k) / 20 == k / 10 && (2 * k) % 20 == 2 * (k % 10)
    ensures (2 * k + 1) / 20 == k / 10 && (2 * k + 1) % 20 == 2 * (k % 10) + 1
  {
  }

  /** digit_pairs[2k] and digit_pairs[2k + 1] are the two digits of k. */
  lemma DigitPairsAt(k: int)
    requires 0 <= k < 100
    ensures TableChar(2 * k) == DigitChar(k / 10) && TableChar(2 * k + 1) == DigitChar(k % 10)
  {
    var r, j := k / 10, k % 10;
    PairPosition(k);
    RowAt(r);
    var row := DigitPairRows[r];
    assert row[2 * j] == DigitChar(r) && row[2 * j + 1] == DigitChar(j);
  }
}
