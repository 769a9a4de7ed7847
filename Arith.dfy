/** Natural-number powers and the division facts the encoders rely on. */
module Arith {

  function Pow(b: nat, k: nat): (r: nat)
    ensures b >= 1 ==> r >= 1
  {
    if k == 0 then 1 else b * Pow(b, k - 1)
  }

  lemma {:induction false} PowMonotone(b: nat, i: nat, j: nat)
    requires b >= 1 && i <= j
    ensures Pow(b, i) <= Pow(b, j)
    decreases j
  {
    if i < j {
      PowMonotone(b, i, j - 1);
      assert Pow(b, j) == b * Pow(b, j - 1);
      MulMonotone(1, b, Pow(b, j - 1));
    }
  }

  lemma {:induction false} PowAdd(b: nat, i: nat, j: nat)
    ensures Pow(b, i + j) == Pow(b, i) * Pow(b, j)
    decreases i
  {
    if i > 0 {
      PowAdd(b, i - 1, j);
      var x, y := Pow(b, i - 1), Pow(b, j);
      assert Pow(b, i + j) == b * Pow(b, i - 1 + j);
      MulAssoc(b, x, y);
    }
  }

  lemma MulAssoc(a: nat, b: nat, c: nat)
    ensures a * (b * c) == (a * b) * c
  {
  }

  lemma MulMonotone(a: nat, b: nat, c: nat)
    requires a <= b
    ensures a * c <= b * c
  {
  }

  /** Euclidean division of a natural number by a positive one. */
  lemma DivMod(a: nat, d: nat)
    requires d > 0
    ensures a == (a / d) * d + a % d && 0 <= a % d < d && a / d >= 0
    ensures a >= d ==> a / d >= 1
    ensures d >= 2 && a >= 1 ==> a / d < a
  {
  }

  /** Quotient and remainder are unique. */
  lemma DivModUnique(a: int, d: int, q: int, r: int)
    requires d > 0 && 0 <= r < d && a == q * d + r
    ensures a / d == q && a % d == r
  {
    var q', r' := a / d, a % d;
    assert a == q' * d + r';
    if q' < q {
      assert q * d - q' * d == (q - q') * d;
      MulMonotone(1, q - q', d);
      assert false;
    } else if q' > q {
      assert q' * d - q * d == (q' - q) * d;
      MulMonotone(1, q' - q, d);
      assert false;
    }
  }

  /** a / d < p exactly when a < p * d. */
  lemma DivLess(a: nat, d: nat, p: nat)
    requires d > 0
    ensures a / d < p <==> a < p * d
  {
    var q, r := a / d, a % d;
    assert a == q * d + r;
    if q < p {
      MulMonotone(q + 1, p, d);
      assert (q + 1) * d == q * d + d;
    } else {
      MulMonotone(p, q, d);
    }
  }

  /** 2 * ((a / 2) % d) + a % 2 == a % (2 * d): peeling one low bit off a
      remainder by a power of two. */
  lemma ModDouble(a: nat, d: nat)
    requires d > 0
    ensures 2 * ((a / 2) % d) + a % 2 == a % (2 * d)
    ensures (a / 2) / d == a / (2 * d)
  {
    var h, b := a / 2, a % 2;
    var t, r := h / d, h % d;
    assert h == t * d + r;
    assert a == t * (2 * d) + (2 * r + b);
    DivModUnique(a, 2 * d, t, 2 * r + b);
  }
}
