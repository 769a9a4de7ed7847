/** The archive writer's bitwise AND for numbers wider than 32 bits
    (src/tar.ts:92-102), and the truncation of `size` and `mtime` it performs. */
module WideAnd {
  import opened Arith

  /** Bitwise AND of two naturals, least significant bit first. */
  function BitAnd(a: nat, b: nat): nat
    decreases a
  {
    if a == 0 || b == 0 then 0
    else 2 * BitAnd(a / 2, b / 2) + (if a % 2 == 1 && b % 2 == 1 then 1 else 0)
  }

  /** AND with a mask of k one-bits keeps the k low bits. */
  lemma {:induction false} BitAndLowMask(a: nat, k: nat)
    ensures BitAnd(a, Pow(2, k) - 1) == a % Pow(2, k)
    decreases k
  {
    if k == 0 {
      assert Pow(2, k) - 1 == 0;
    } else if a == 0 {
      assert BitAnd(a, Pow(2, k) - 1) == 0;
    } else {
      var p := Pow(2, k - 1);
      BitAndLowMask(a / 2, k - 1);
      BitAndMaskStep(a, p, Pow(2, k));
    }
  }

  /** One more mask bit keeps one more low bit. */
  lemma BitAndMaskStep(a: nat, p: nat, q: nat)
    requires a > 0 && p >= 1 && q == 2 * p
    requires BitAnd(a / 2, p - 1) == (a / 2) % p
    ensures BitAnd(a, q - 1) == a % q
  {
    OddMask(p);
    assert BitAnd(a, q - 1) == 2 * BitAnd(a / 2, p - 1) + a % 2;
    ModDouble(a, p);
  }

  lemma OddMask(p: nat)
    requires p >= 1
    ensures (2 * p - 1) % 2 == 1 && (2 * p - 1) / 2 == p - 1
  {
  }

  const TWO_POW_31: nat := 0x8000_0000
  const TWO_POW_32: nat := 0x1_0000_0000
  const TWO_POW_33: nat := 0x2_0000_0000
  /** Integers up to 2^53 are exact in a JavaScript number. */
  const TWO_POW_53: nat := 0x20_0000_0000_0000

  /** The largest value of an 11-digit octal field, 0o77777777777 = 2^33 - 1. */
  const MAX_OCTAL_11: nat := 0x1_FFFF_FFFF

  /** `and(v1, v2)`: the high parts (v / 2^31, below 2^22 for exact numbers) and
      the low 31 bits are ANDed separately with 32-bit `&`, whose operands are
      first reduced to their low 32 bits. */
  function And(v1: nat, v2: nat): nat
    requires v1 < TWO_POW_53 && v2 < TWO_POW_53
  {
    var hi := TWO_POW_31;
    var low := TWO_POW_31 - 1;
    var hi1 := v1 / hi;
    var hi2 := v2 / hi;
    var low1 := BitAnd(v1 % TWO_POW_32, low);
    var low2 := BitAnd(v2 % TWO_POW_32, low);
    var h := BitAnd(hi1, hi2);
    var l := BitAnd(low1, low2);
    h * hi + l
  }

  lemma LowBitsOfLowBits(v: nat)
    ensures (v % TWO_POW_32) % TWO_POW_31 == v % TWO_POW_31
  {
    var a, b := v / TWO_POW_32, v % TWO_POW_32;
    var c, d := b / TWO_POW_31, b % TWO_POW_31;
    assert v == (2 * a + c) * TWO_POW_31 + d;
    DivModUnique(v, TWO_POW_31, 2 * a + c, d);
  }

  lemma PowTwo31()
    ensures Pow(2, 31) == TWO_POW_31
  {
    assert Pow(2, 10) == 1024 && Pow(2, 11) == 2048;
    PowAdd(2, 10, 10);
    PowAdd(2, 20, 11);
  }

  /** The low 31 bits of v, as `and` computes them, when the other operand has
      its 31 low bits set. */
  lemma AndLowPart(v: nat, w: nat)
    requires w % TWO_POW_31 == TWO_POW_31 - 1
    ensures BitAnd(BitAnd(v % TWO_POW_32, TWO_POW_31 - 1), BitAnd(w % TWO_POW_32, TWO_POW_31 - 1))
         == v % TWO_POW_31
  {
    Low31OfLow32(v);
    Low31OfLow32(w);
    AndWithLowMask(BitAnd(v % TWO_POW_32, TWO_POW_31 - 1), BitAnd(w % TWO_POW_32, TWO_POW_31 - 1));
  }

  /** A value below 2^31 ANDed with the 31-bit mask is itself. */
  lemma AndWithLowMask(a: nat, m: nat)
    requires a < TWO_POW_31 && m == TWO_POW_31 - 1
    ensures BitAnd(a, m) == a
  {
    MaskLow31(a);
    SmallMod(a, TWO_POW_31);
  }

  lemma SmallMod(a: nat, n: nat)
    requires a < n
    ensures a % n == a
  {
  }

  /** The 32-bit `&` with 0x7FFFFFFF keeps the 31 low bits. */
  lemma Low31OfLow32(v: nat)
    ensures BitAnd(v % TWO_POW_32, TWO_POW_31 - 1) == v % TWO_POW_31
  {
    MaskLow31(v % TWO_POW_32);
    LowBitsOfLowBits(v);
  }

  lemma MaskLow31(x: nat)
    ensures BitAnd(x, TWO_POW_31 - 1) == x % TWO_POW_31
  {
    PowTwo31();
    BitAndLowMask(x, 31);
  }

  /** `and(v, 0o77777777777)` is v modulo 2^33, hence the identity on values the
      11-digit field can hold. */
  lemma AndTruncates(v: nat)
    requires v < TWO_POW_53
    ensures And(v, MAX_OCTAL_11) == v % TWO_POW_33
    ensures v <= MAX_OCTAL_11 ==> And(v, MAX_OCTAL_11) == v
  {
    var q, r := v / TWO_POW_31, v % TWO_POW_31;
    AndLowPart(v, MAX_OCTAL_11);
    assert MAX_OCTAL_11 / TWO_POW_31 == 3;
    assert BitAnd(q, 3) == q % 4 by {
      assert Pow(2, 2) == 4;
      BitAndLowMask(q, 2);
    }
    assert And(v, MAX_OCTAL_11) == (q % 4) * TWO_POW_31 + r;
    var s, t := q % 4, q / 4;
    assert v == t * TWO_POW_33 + (s * TWO_POW_31 + r);
    DivModUnique(v, TWO_POW_33, t, s * TWO_POW_31 + r);
  }
}
