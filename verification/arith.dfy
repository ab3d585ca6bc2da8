/** Integer facts shared by the decimal model and the drift counting argument:
    powers of ten, absolute value, and the uniqueness of Euclidean division. */
module Arith {

  function Abs(x: int): nat {
    if x < 0 then -x else x
  }

  function Max(a: nat, b: nat): nat {
    if a < b then b else a
  }

  /** 10^n */
  function Pow10(n: nat): (r: nat)
    ensures r >= 1
    ensures n >= 1 ==> r >= 10
  {
    if n == 0 then 1 else 10 * Pow10(n - 1)
  }

  lemma {:induction false} Pow10Add(a: nat, b: nat)
    ensures Pow10(a + b) == Pow10(a) * Pow10(b)
  {
    if a > 0 {
      Pow10Add(a - 1, b);
      assert Pow10(a + b) == 10 * Pow10(a - 1 + b);
      assert Pow10(a) * Pow10(b) == 10 * (Pow10(a - 1) * Pow10(b));
    }
  }

  /** Quotient and remainder are determined by the equation x == q * d + r with 0 <= r < d. */
  lemma DivModUnique(x: int, d: int, q: int, r: int)
    requires d > 0
    requires x == q * d + r
    requires 0 <= r < d
    ensures x / d == q
    ensures x % d == r
  {
    var q0, r0 := x / d, x % d;
    assert x == q0 * d + r0;
    assert (q - q0) * d == r0 - r;
    if q > q0 {
      MulAtLeast(q - q0, d);
      assert false;
    } else if q < q0 {
      MulAtLeast(q0 - q, d);
      assert false;
    }
  }

  lemma MulAtLeast(k: int, d: int)
    requires k >= 1
    requires d > 0
    ensures k * d >= d
  {
  }

  /** Adding one to the dividend raises the quotient exactly when the new dividend is a multiple. */
  lemma DivStep(x: nat, d: int)
    requires d > 0
    ensures (x + 1) / d == x / d + (if (x + 1) % d == 0 then 1 else 0)
  {
    var q, r := x / d, x % d;
    if r + 1 < d {
      DivModUnique(x + 1, d, q, r + 1);
    } else {
      DivModUnique(x + 1, d, q + 1, 0);
    }
  }

  /** Remainders are unchanged by adding one multiple of the divisor. */
  lemma ModShift(x: nat, d: int)
    requires d > 0
    ensures (x + d) % d == x % d
  {
    DivModUnique(x + d, d, x / d + 1, x % d);
  }

  /** Small product facts, stated once so that callers can hand them to the solver one at a time. */
  lemma MulAssoc(x: int, a: int, b: int)
    ensures x * (a * b) == (x * a) * b
  {
  }

  lemma MulAddDistrib(x: int, y: int, c: int)
    ensures (x + y) * c == x * c + y * c
  {
  }

  lemma NegMul(x: int, y: int)
    ensures (-x) * y == -(x * y)
  {
  }

  lemma MulMono(q: nat, a: int, b: int)
    requires a <= b
    ensures q * a <= q * b
  {
    assert q * b - q * a == q * (b - a);
  }
}
