/** PAX extended-header records `"<len> <keyword>=<value>\n"` (src/pax.ts), where
    `<len>` is meant to be the decimal byte length of the whole record,
    `<len>` itself included. */
module Pax {
  import opened Bytes
  import opened Arith
  import opened Numerals

  /** The two keywords the archive writer emits. */
  datatype PaxKeyword = Size | Path
  {
    function Text(): (r: seq<Byte>)
      ensures |r| == 4
    {
      match this
      case Size => [0x73, 0x69, 0x7A, 0x65]
      case Path => [0x70, 0x61, 0x74, 0x68]
    }
  }

  /** One record; `value` is the UTF-8 encoding of the value string. */
  datatype PaxExtendedHeader = PaxExtendedHeader(keyword: PaxKeyword, value: seq<Byte>)
  {
    /** Everything but the length digits: keyword, value, space, '=' and newline. */
    function BaseLength(): nat
    {
      |keyword.Text()| + |value| + 3
    }

    /** `length()` as src/pax.ts:4-11 writes it. */
    function LengthAsWritten(): nat
    {
      LengthAsWrittenOf(BaseLength())
    }

    /** `length()` as evidently intended; the rest of the model uses this one. */
    function Length(): nat
    {
      RecordLength(BaseLength())
    }

    /** The record text with a given length prefix. */
    function Text(len: nat): seq<Byte>
    {
      Decimal(len) + [SPACE] + keyword.Text() + [EQUALS] + value + [LF]
    }

    /** `toUint8Array()`, headed by the corrected length. */
    function ToBytes(): seq<Byte>
    {
      Text(Length())
    }

    /** `toUint8Array()` as src/pax.ts:13-16 writes it: headed by `length()` as
        written. */
    function ToBytesAsWritten(): seq<Byte>
    {
      Text(LengthAsWritten())
    }
  }

  /** src/pax.ts:5-10: the digit count of base, plus one when adding the digit
      count of that digit count to base changes its number of digits. */
  function LengthAsWrittenOf(base: nat): nat
  {
    var lengthLog10 := DecimalLength(base);
    var bumped :=
      if DecimalLength(DecimalLength(lengthLog10) + base) != DecimalLength(base)
      then lengthLog10 + 1 else lengthLog10;
    bumped + base
  }

  /** The intended fixed point: bump the digit count when adding the digit count
      itself to base carries into a new decimal digit. */
  function RecordLength(base: nat): nat
  {
    var lengthLog10 := DecimalLength(base);
    var bumped := if DecimalLength(lengthLog10 + base) != lengthLog10 then lengthLog10 + 1 else lengthLog10;
    bumped + base
  }

  /** A length prefix is right when its own digits plus base add up to it. */
  predicate SelfConsistent(base: nat, len: nat)
  {
    DecimalLength(len) + base == len
  }

  lemma TextLength(r: PaxExtendedHeader, len: nat)
    ensures |r.Text(len)| == DecimalLength(len) + r.BaseLength()
  {
  }

  // ---------------------------------------------------------------------------
  // Digit-count arithmetic

  lemma {:induction false} PowExceedsExponent(k: nat)
    ensures Pow(10, k) >= k + 1
    decreases k
  {
    if k > 0 {
      PowExceedsExponent(k - 1);
    }
  }

  /** The decimal numeral of base has k digits, with base in [10^(k-1), 10^k). */
  lemma DecimalBounds(base: nat)
    requires base >= 1
    ensures var k := DecimalLength(base);
      k >= 1 && base < Pow(10, k) && Pow(10, k - 1) <= base
  {
    DigitsBounds(base, 10);
  }

  /** Adding a small j to base keeps its digit count k unless base + j reaches 10^k,
      in which case it has k + 1 digits. */
  lemma DigitsAfterShift(base: nat, j: nat)
    requires base >= 1 && j <= DecimalLength(base) + 1
    ensures var k := DecimalLength(base);
      DecimalLength(base + j) == if base + j < Pow(10, k) then k else k + 1
  {
    var k := DecimalLength(base);
    DecimalBounds(base);
    PowExceedsExponent(k);
    if base + j < Pow(10, k) {
      DigitCount(base + j, 10, k);
    } else {
      assert Pow(10, k + 1) == 10 * Pow(10, k);
      DigitCount(base + j, 10, k + 1);
    }
  }

  /** A digit count never exceeds the number it counts the digits of. */
  lemma DigitCountOfDigitCount(k: nat)
    requires k >= 1
    ensures 1 <= DecimalLength(k) <= k
    ensures k < 10 ==> DecimalLength(k) == 1
  {
    if k < 10 {
      DigitCount(k, 10, 1);
    } else {
      DecimalBounds(k);
      var j := DecimalLength(k);
      PowExceedsExponent(j - 1);
    }
  }

  // ---------------------------------------------------------------------------
  // The length as written

  /** `length()` returns base plus the digit count k of base, or plus k + 1; the
      increment happens exactly when base + digits(k) reaches 10^k. */
  lemma AsWrittenIncrement(base: nat)
    requires base >= 1
    ensures var k := DecimalLength(base);
      && (LengthAsWrittenOf(base) == base + k || LengthAsWrittenOf(base) == base + k + 1)
      && (LengthAsWrittenOf(base) == base + k + 1 <==> base + DecimalLength(k) >= Pow(10, k))
  {
    var k := DecimalLength(base);
    DecimalBounds(base);
    DigitCountOfDigitCount(k);
    DigitsAfterShift(base, DecimalLength(k));
  }

  /** For any base below 10^9 the increment happens exactly when base is
      10^k - 1, i.e. when base + 1 has more digits than base. */
  lemma AsWrittenIncrementSmall(base: nat)
    requires 1 <= base < 1_000_000_000
    ensures var bumped := LengthAsWrittenOf(base) == base + DecimalLength(base) + 1;
      bumped <==> DecimalLength(base + 1) != DecimalLength(base)
    ensures var carries := DecimalLength(base + 1) != DecimalLength(base);
      carries <==> base + 1 == Pow(10, DecimalLength(base))
  {
    var k := DecimalLength(base);
    DecimalBounds(base);
    DigitCount(base, 10, k);
    assert Pow(10, 9) == 1_000_000_000;
    if k > 9 {
      PowMonotone(10, 9, k - 1);
    }
    DigitCountOfDigitCount(k);
    AsWrittenIncrement(base);
    DigitsAfterShift(base, 1);
  }

  /** The exact condition: the length as written is self-consistent unless
      10^k - k <= base <= 10^k - digits(k) - 1 (k the digit count of base), and
      inside that band it is one less than the real record length. */
  lemma AsWrittenSelfConsistentIff(base: nat)
    requires base >= 1
    ensures var k := DecimalLength(base);
      var inBand := Pow(10, k) - k <= base <= Pow(10, k) - DecimalLength(k) - 1;
      && (SelfConsistent(base, LengthAsWrittenOf(base)) <==> !inBand)
      && (inBand ==> DecimalLength(LengthAsWrittenOf(base)) + base == LengthAsWrittenOf(base) + 1)
  {
    var k := DecimalLength(base);
    var m := DecimalLength(k);
    DecimalBounds(base);
    DigitCountOfDigitCount(k);
    AsWrittenIncrement(base);
    if base + m >= Pow(10, k) {
      DigitsAfterShift(base, k + 1);
    } else {
      DigitsAfterShift(base, k);
    }
  }

  /** Below 10^9 the band is 10^k - k <= base <= 10^k - 2 with k >= 2:
      98, 997-998, 9996-9998, ... */
  lemma AsWrittenSelfConsistentSmall(base: nat)
    requires 1 <= base < 1_000_000_000
    ensures var k := DecimalLength(base);
      var inBand := k >= 2 && Pow(10, k) - k <= base <= Pow(10, k) - 2;
      SelfConsistent(base, LengthAsWrittenOf(base)) <==> !inBand
  {
    var k := DecimalLength(base);
    DecimalBounds(base);
    assert Pow(10, 9) == 1_000_000_000;
    if k > 9 {
      PowMonotone(10, 9, k - 1);
    }
    DigitCountOfDigitCount(k);
    AsWrittenSelfConsistentIff(base);
  }

  // ---------------------------------------------------------------------------
  // The intended length

  /** The intended length is self-consistent for every base. */
  lemma RecordLengthSelfConsistent(base: nat)
    requires base >= 1
    ensures SelfConsistent(base, RecordLength(base))
    ensures var k := DecimalLength(base);
      RecordLength(base) == base + k || RecordLength(base) == base + k + 1
  {
    var k := DecimalLength(base);
    DecimalBounds(base);
    DigitsAfterShift(base, k);
    if base + k >= Pow(10, k) {
      DigitsAfterShift(base, k + 1);
    }
  }

  /** The two lengths agree exactly outside the band. */
  lemma AsWrittenAgreesOutsideBand(base: nat)
    requires base >= 1
    ensures var k := DecimalLength(base);
      var inBand := Pow(10, k) - k <= base <= Pow(10, k) - DecimalLength(k) - 1;
      LengthAsWrittenOf(base) == RecordLength(base) <==> !inBand
  {
    AsWrittenSelfConsistentIff(base);
    RecordLengthSelfConsistent(base);
    var k := DecimalLength(base);
    DecimalBounds(base);
    DigitCountOfDigitCount(k);
    AsWrittenIncrement(base);
    DigitsAfterShift(base, k);
  }

  /** base lies in the band 10^k - k <= base <= 10^k - digits(k) - 1 (k the
      digit count of base), where `length()` as written is one short. */
  predicate InBand(base: nat)
  {
    var k := DecimalLength(base);
    Pow(10, k) - k <= base <= Pow(10, k) - DecimalLength(k) - 1
  }

  /** The record as written is `length()` bytes long outside the band and one
      byte longer inside it; outside the band it is the corrected record. */
  lemma AsWrittenRecord(r: PaxExtendedHeader)
    ensures |r.ToBytesAsWritten()| == r.LengthAsWritten() + (if InBand(r.BaseLength()) then 1 else 0)
    ensures !InBand(r.BaseLength()) <==> r.LengthAsWritten() == r.Length()
    ensures !InBand(r.BaseLength()) ==> r.ToBytesAsWritten() == r.ToBytes()
  {
    TextLength(r, r.LengthAsWritten());
    AsWrittenSelfConsistentIff(r.BaseLength());
    AsWrittenAgreesOutsideBand(r.BaseLength());
  }

  /** `toUint8Array()` is exactly `length()` bytes long, and its leading decimal
      field, read up to the first space, gives that length back. */
  lemma ToBytesSelfDescribing(r: PaxExtendedHeader)
    ensures |r.ToBytes()| == r.Length()
    ensures var d := DecimalLength(r.Length());
      var t := r.ToBytes();
      && d < |t|
      && AllDigits(t[..d], 10) && t[0] != ZERO
      && t[d] == SPACE
      && t[d + 1..d + 5] == r.keyword.Text()
      && t[d + 5] == EQUALS
      && t[d + 6..|t| - 1] == r.value
      && t[|t| - 1] == LF
      && Value(t[..d], 10) == |t|
  {
    var len := r.Length();
    RecordLengthSelfConsistent(r.BaseLength());
    TextLength(r, len);
    var d := Decimal(len);
    RecordSlices(d, r.keyword.Text(), r.value);
    ValueOfDigits(len, 10);
  }

  /** Where each part of a record lies. */
  lemma RecordSlices(d: seq<Byte>, kw: seq<Byte>, value: seq<Byte>)
    requires |kw| == 4
    ensures var t := d + [SPACE] + kw + [EQUALS] + value + [LF];
      var n := |d|;
      && |t| == n + |value| + 7
      && t[..n] == d && t[n] == SPACE && t[n + 1..n + 5] == kw && t[n + 5] == EQUALS
      && t[n + 6..|t| - 1] == value && t[|t| - 1] == LF
  {
  }

  /** A `size` record for a size in [2^33, 2^53) has base 17..23, outside the
      band, so its length as written is right. */
  lemma SizeRecordUnaffected(size: nat)
    requires 0x2_0000_0000 <= size < 0x20_0000_0000_0000
    ensures var r := PaxExtendedHeader(Size, Decimal(size));
      && 17 <= r.BaseLength() <= 23
      && r.LengthAsWritten() == r.Length()
  {
    var r := PaxExtendedHeader(Size, Decimal(size));
    DigitsBounds(size, 10);
    var n := DecimalLength(size);
    assert Pow(10, 9) == 1_000_000_000;
    assert Pow(10, 16) == 10_000_000_000_000_000 by {
      assert Pow(10, 8) == 100_000_000;
      PowAdd(10, 8, 8);
    }
    if n < 10 {
      PowMonotone(10, n, 9);
    }
    if n > 16 {
      PowMonotone(10, 16, n - 1);
    }
    var base := r.BaseLength();
    assert base == n + 7;
    DigitCount(base, 10, 2);
    assert Pow(10, 2) == 100;
    AsWrittenAgreesOutsideBand(base);
  }

  /** A concrete instance of the band: a `path` value of 990 bytes has base 997;
      `length()` as written says 1000, but the record is 1001 bytes long. */
  lemma PathOf990BytesMisreported(value: seq<Byte>)
    requires |value| == 990
    ensures var r := PaxExtendedHeader(Path, value);
      && r.LengthAsWritten() == 1000
      && |r.Text(r.LengthAsWritten())| == 1001
      && r.Length() == 1001 && |r.ToBytes()| == 1001
  {
    var r := PaxExtendedHeader(Path, value);
    assert r.BaseLength() == 997;
    assert Pow(10, 2) == 100 && Pow(10, 3) == 1000 && Pow(10, 4) == 10000;
    DigitCount(997, 10, 3);
    DigitCount(3, 10, 1);
    DigitCount(998, 10, 3);
    DigitCount(1000, 10, 4);
    DigitCount(1001, 10, 4);
    TextLength(r, 1000);
    TextLength(r, 1001);
  }
}
