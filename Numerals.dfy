/** ASCII numerals: `Number.prototype.toString(radix)` for non-negative integers,
    `String.prototype.padStart(width, '0')`, and the reading back of such a
    field by an archive reader. */
module Numerals {
  import opened Bytes
  import opened Arith

  const ZERO: Byte := 0x30

  predicate IsDigit(c: Byte, radix: nat)
  {
    ZERO <= c < ZERO + radix
  }

  predicate AllDigits(s: seq<Byte>, radix: nat)
  {
    forall i :: 0 <= i < |s| ==> IsDigit(s[i], radix)
  }

  /** `v.toString(radix)`: the shortest numeral of v, most significant digit first. */
  function Digits(v: nat, radix: nat): (r: seq<Byte>)
    requires 2 <= radix <= 10
    ensures |r| >= 1 && AllDigits(r, radix)
    ensures r[0] == ZERO ==> v == 0
    decreases v
  {
    if v < radix then [ZERO + v] else Digits(v / radix, radix) + [ZERO + v % radix]
  }

  /** The number a numeral denotes (what a tar reader computes from a field). */
  function Value(s: seq<Byte>, radix: nat): nat
    requires AllDigits(s, radix)
  {
    if s == [] then 0 else Value(s[..|s| - 1], radix) * radix + (s[|s| - 1] - ZERO)
  }

  lemma {:induction false} ValueOfDigits(v: nat, radix: nat)
    requires 2 <= radix <= 10
    ensures Value(Digits(v, radix), radix) == v
    decreases v
  {
    var d := Digits(v, radix);
    if v >= radix {
      var q, r := v / radix, v % radix;
      DivMod(v, radix);
      assert d[..|d| - 1] == Digits(q, radix);
      assert d[|d| - 1] - ZERO == r;
      ValueOfDigits(q, radix);
      assert Value(d, radix) == q * radix + r;
      assert v == q * radix + r;
    }
  }

  /** A numeral of n digits denotes a number below radix^n, and a numeral with
      a leading non-zero digit one of at least radix^(n-1). */
  lemma {:induction false} DigitsBounds(v: nat, radix: nat)
    requires 2 <= radix <= 10
    ensures v < Pow(radix, |Digits(v, radix)|)
    ensures |Digits(v, radix)| > 1 ==> Pow(radix, |Digits(v, radix)| - 1) <= v
    decreases v
  {
    if v >= radix {
      DivMod(v, radix);
      DigitsBounds(v / radix, radix);
      DigitsBoundsStep(v, radix);
    } else {
      assert Pow(radix, 1) == radix;
    }
  }

  lemma DigitsBoundsStep(v: nat, radix: nat)
    requires 2 <= radix <= 10 && radix <= v
    requires var n := |Digits(v / radix, radix)|;
      v / radix < Pow(radix, n) && (n > 1 ==> Pow(radix, n - 1) <= v / radix)
    ensures v < Pow(radix, |Digits(v, radix)|)
    ensures Pow(radix, |Digits(v, radix)| - 1) <= v
  {
    var n := |Digits(v / radix, radix)|;
    assert |Digits(v, radix)| == n + 1;
    PowStep(v, radix, n);
  }

  /** One more digit: bounds on v / radix give bounds on v one power higher. */
  lemma PowStep(v: nat, radix: nat, n: nat)
    requires 2 <= radix <= v && n >= 1
    requires v / radix < Pow(radix, n)
    requires n > 1 ==> Pow(radix, n - 1) <= v / radix
    ensures v < Pow(radix, n + 1) && Pow(radix, n) <= v
  {
    var p := Pow(radix, n);
    DivLess(v, radix, p);
    assert Pow(radix, n + 1) == radix * p;
    if n > 1 {
      var p' := Pow(radix, n - 1);
      DivLess(v, radix, p');
      assert p == radix * p';
    } else {
      assert p == radix;
    }
  }

  /** The digit count of v is k exactly when v lies in [radix^(k-1), radix^k)
      (or k = 1 and v < radix). */
  lemma DigitCount(v: nat, radix: nat, k: nat)
    requires 2 <= radix <= 10 && k >= 1
    requires if k == 1 then v < radix else Pow(radix, k - 1) <= v < Pow(radix, k)
    ensures |Digits(v, radix)| == k
  {
    var j := |Digits(v, radix)|;
    DigitsBounds(v, radix);
    if j < k {
      PowMonotone(radix, j, k - 1);
    } else if j > k {
      PowMonotone(radix, k, j - 1);
    }
  }

  /** A number below radix^w has at most w digits. */
  lemma DigitsFit(v: nat, radix: nat, w: nat)
    requires 2 <= radix <= 10 && w >= 1 && v < Pow(radix, w)
    ensures |Digits(v, radix)| <= w
  {
    var j := |Digits(v, radix)|;
    DigitsBounds(v, radix);
    if j > w {
      PowMonotone(radix, w, j - 1);
    }
  }

  /** `s.padStart(w, '0')`: never truncates. */
  function PadStart(s: seq<Byte>, w: nat): (r: seq<Byte>)
    ensures |r| == if |s| >= w then |s| else w
  {
    if |s| >= w then s else seq(w - |s|, _ => ZERO) + s
  }

  lemma {:induction false} ValueIgnoresLeadingZeros(n: nat, s: seq<Byte>, radix: nat)
    requires 2 <= radix <= 10 && AllDigits(s, radix)
    ensures AllDigits(seq(n, _ => ZERO) + s, radix)
    ensures Value(seq(n, _ => ZERO) + s, radix) == Value(s, radix)
    decreases |s| + n
  {
    var z: seq<Byte> := seq(n, _ => ZERO);
    if s == [] {
      assert z + s == z;
      if n > 0 {
        assert z[..n - 1] == seq(n - 1, _ => ZERO);
        ValueIgnoresLeadingZeros(n - 1, [], radix);
        assert seq(n - 1, _ => ZERO) + [] == seq(n - 1, _ => ZERO);
      }
    } else {
      assert (z + s)[..|z + s| - 1] == z + s[..|s| - 1];
      ValueIgnoresLeadingZeros(n, s[..|s| - 1], radix);
    }
  }

  /** `v.toString(8).padStart(w, '0')`. */
  function OctalField(v: nat, w: nat): seq<Byte>
  {
    PadStart(Digits(v, 8), w)
  }

  /** An octal field of width w holds any v below 8^w exactly: w octal digits
      that read back as v. */
  lemma OctalFieldRoundTrip(v: nat, w: nat)
    requires w >= 1 && v < Pow(8, w)
    ensures |OctalField(v, w)| == w
    ensures AllDigits(OctalField(v, w), 8)
    ensures Value(OctalField(v, w), 8) == v
  {
    var d := Digits(v, 8);
    DigitsFit(v, 8, w);
    ValueOfDigits(v, 8);
    ValueIgnoresLeadingZeros(w - |d|, d, 8);
    if |d| >= w {
      assert seq(w - |d|, _ => ZERO) + d == d;
    }
  }

  /** `v.toString()`. */
  function Decimal(v: nat): seq<Byte>
  {
    Digits(v, 10)
  }

  /** `v.toString().length`. */
  function DecimalLength(v: nat): nat
  {
    |Decimal(v)|
  }
}
