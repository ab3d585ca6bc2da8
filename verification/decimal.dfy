/** The part of System.Decimal that the program relies on: a 96-bit signed
    mantissa scaled by a power of ten between 0 and 28, exact addition and
    subtraction, and decimal.Round(d, k) with .NET's default midpoint mode
    (half to even). */
module Decimals {
  import opened Arith

  const MaxScale: nat := 28
  /** 2^96: the mantissa is a 96-bit magnitude plus a sign. */
  const MantLimit: nat := 0x1_0000_0000_0000_0000_0000_0000

  datatype Dec = Dec(mant: int, scale: nat)

  type Decimal = d: Dec | d.scale <= MaxScale && Abs(d.mant) < MantLimit
    witness Dec(0, 0)

  const Zero: Decimal := Dec(0, 0)
  /** 10^28: the value 1 in 10^-28 units. */
  const One: nat := 10_000_000_000_000_000_000_000_000_000

  datatype DecimalError =
    | Overflow      // the integer part needs more than 96 bits: .NET throws OverflowException
    | Inexact       // fits only after rounding to fewer fractional digits, which this model does not do
    | DivideByZero  // division by a zero count: .NET throws DivideByZeroException

  datatype Outcome<+T> = Ok(value: T) | Err(error: DecimalError) {
    predicate IsFailure() {
      Err?
    }

    function PropagateFailure<U>(): Outcome<U>
      requires Err?
    {
      Err(error)
    }

    function Extract(): T
      requires Ok?
    {
      value
    }
  }

  /** The mantissa of d re-expressed at the finer scale s. */
  function Units(d: Dec, s: nat): int
    requires d.scale <= s
  {
    d.mant * Pow10(s - d.scale)
  }

  /** 10^(28 - s): what one mantissa unit at scale s is worth, in 10^-28 units. */
  function UnitWeight(s: nat): nat
    requires s <= MaxScale
  {
    match s
    case 0 => 10_000_000_000_000_000_000_000_000_000
    case 1 => 1_000_000_000_000_000_000_000_000_000
    case 2 => 100_000_000_000_000_000_000_000_000
    case 3 => 10_000_000_000_000_000_000_000_000
    case 4 => 1_000_000_000_000_000_000_000_000
    case 5 => 100_000_000_000_000_000_000_000
    case 6 => 10_000_000_000_000_000_000_000
    case 7 => 1_000_000_000_000_000_000_000
    case 8 => 100_000_000_000_000_000_000
    case 9 => 10_000_000_000_000_000_000
    case 10 => 1_000_000_000_000_000_000
    case 11 => 100_000_000_000_000_000
    case 12 => 10_000_000_000_000_000
    case 13 => 1_000_000_000_000_000
    case 14 => 100_000_000_000_000
    case 15 => 10_000_000_000_000
    case 16 => 1_000_000_000_000
    case 17 => 100_000_000_000
    case 18 => 10_000_000_000
    case 19 => 1_000_000_000
    case 20 => 100_000_000
    case 21 => 10_000_000
    case 22 => 1_000_000
    case 23 => 100_000
    case 24 => 10_000
    case 25 => 1_000
    case 26 => 100
    case 27 => 10
    case _ => 1
  }

  lemma {:induction false} UnitWeightIsPow10(s: nat)
    requires s <= MaxScale
    ensures UnitWeight(s) == Pow10(MaxScale - s)
    decreases MaxScale - s
  {
    if s < MaxScale {
      UnitWeightIsPow10(s + 1);
      assert UnitWeight(s) == 10 * UnitWeight(s + 1);
    }
  }

  /** The exact value of d, as an integer count of 10^-28 units. Two decimals
      are numerically equal exactly when their values are. */
  function Value(d: Dec): int
    requires d.scale <= MaxScale
  {
    d.mant * UnitWeight(d.scale)
  }

  lemma ValueIsUnits(d: Dec)
    requires d.scale <= MaxScale
    ensures Value(d) == Units(d, MaxScale)
  {
    UnitWeightIsPow10(d.scale);
  }

  /** Re-expressing at scale s and then at scale t is the same as going to t directly. */
  lemma UnitsRescale(d: Dec, s: nat, t: nat)
    requires d.scale <= s <= t
    ensures Units(d, t) == Units(d, s) * Pow10(t - s)
  {
    Pow10Add(s - d.scale, t - s);
    assert t - d.scale == (s - d.scale) + (t - s);
    MulAssoc(d.mant, Pow10(s - d.scale), Pow10(t - s));
  }

  predicate Fits(m: int) {
    Abs(m) < MantLimit
  }

  /** decimal + decimal: the exact sum at the larger of the two scales, when its
      mantissa fits in 96 bits. */
  function Add(a: Decimal, b: Decimal): (r: Outcome<Decimal>)
    ensures r.Ok? ==> Value(r.value) == Value(a) + Value(b)
    ensures r.Ok? ==> r.value.scale == Max(a.scale, b.scale)
    ensures r.Ok? <==> Fits(Units(a, Max(a.scale, b.scale)) + Units(b, Max(a.scale, b.scale)))
    ensures r == Err(Overflow) <==> IntegerPart(Value(a) + Value(b)) >= MantLimit
  {
    var s := Max(a.scale, b.scale);
    var m := Units(a, s) + Units(b, s);
    if Fits(m) then
      FittingSum(a, b, s);
      Ok(Dec(m, s))
    else if IntegerPart(Value(a) + Value(b)) >= MantLimit then
      Err(Overflow)
    else
      Err(Inexact)
  }

  /** The magnitude of the integer part of a value given in 10^-28 units. */
  function IntegerPart(v: int): nat {
    Abs(v) / One
  }

  /** A mantissa that fits 96 bits, at any scale, has an integer part that fits 96 bits. */
  lemma SmallIntegerPart(m: int, w: nat)
    requires Fits(m) && 0 < w <= One
    ensures IntegerPart(m * w) < MantLimit
  {
    assert Abs(m * w) == Abs(m) * w;
    MulMono(Abs(m), w, One);
    MulMono(One, Abs(m), MantLimit - 1);
    DivBelow(Abs(m * w), One, MantLimit - 1);
  }

  lemma DivBelow(x: nat, d: nat, k: nat)
    requires d > 0 && x <= k * d + (d - 1)
    ensures x / d <= k
  {
    if x / d > k {
      assert x == (x / d) * d + x % d;
      MulMono(d, k + 1, x / d);
    }
  }

  /** A sum whose aligned mantissa fits is exact and has an integer part below 2^96. */
  lemma FittingSum(a: Decimal, b: Decimal, s: nat)
    requires a.scale <= s <= MaxScale && b.scale <= s
    requires Fits(Units(a, s) + Units(b, s))
    ensures Value(Dec(Units(a, s) + Units(b, s), s)) == Value(a) + Value(b)
    ensures IntegerPart(Value(a) + Value(b)) < MantLimit
  {
    AlignedSum(a, b, s);
    UnitWeightBounds(s);
    SmallIntegerPart(Units(a, s) + Units(b, s), UnitWeight(s));
  }

  /** Every unit weight lies between one 10^-28 unit and One. */
  lemma UnitWeightBounds(s: nat)
    requires s <= MaxScale
    ensures 0 < UnitWeight(s) <= One
  {
  }

  /** Adding mantissas aligned at a common scale adds the values. */
  lemma AlignedSum(a: Decimal, b: Decimal, s: nat)
    requires a.scale <= s <= MaxScale && b.scale <= s
    ensures Value(Dec(Units(a, s) + Units(b, s), s)) == Value(a) + Value(b)
  {
    UnitsRescale(a, s, MaxScale);
    UnitsRescale(b, s, MaxScale);
    ValueIsUnits(a);
    ValueIsUnits(b);
    ValueIsUnits(Dec(Units(a, s) + Units(b, s), s));
    MulAddDistrib(Units(a, s), Units(b, s), Pow10(MaxScale - s));
  }

  function Negate(a: Decimal): (r: Decimal)
    ensures Value(r) == -Value(a)
    ensures r.scale == a.scale
  {
    Dec(-a.mant, a.scale)
  }

  /** decimal - decimal: the exact difference at the larger of the two scales,
      when its mantissa fits in 96 bits. */
  function Sub(a: Decimal, b: Decimal): (r: Outcome<Decimal>)
    ensures r.Ok? ==> Value(r.value) == Value(a) - Value(b)
    ensures r.Ok? ==> r.value.scale == Max(a.scale, b.scale)
    ensures r.Ok? <==> Fits(Units(a, Max(a.scale, b.scale)) - Units(b, Max(a.scale, b.scale)))
    ensures r == Err(Overflow) <==> IntegerPart(Value(a) - Value(b)) >= MantLimit
  {
    NegatedUnits(b, Max(a.scale, b.scale));
    Add(a, Negate(b))
  }

  /** Negating a decimal negates its mantissa at every scale. */
  lemma NegatedUnits(b: Decimal, s: nat)
    requires b.scale <= s
    ensures Units(Negate(b), s) == -Units(b, s)
  {
    NegMul(b.mant, Pow10(s - b.scale));
  }

  /** q is m / p rounded to the nearest integer, ties to the even neighbour:
      the independent description of MidpointRounding.ToEven. */
  predicate NearestEven(m: int, p: int, q: int)
    requires p > 0
  {
    var e := Abs(m - q * p);
    2 * e < p || (2 * e == p && q % 2 == 0)
  }

  /** There is only one such q. */
  lemma NearestEvenUnique(m: int, p: int, q1: int, q2: int)
    requires p > 0
    requires NearestEven(m, p, q1)
    requires NearestEven(m, p, q2)
    ensures q1 == q2
  {
    var k := q2 - q1;
    var e1, e2 := m - q1 * p, m - q2 * p;
    StepDifference(m, p, q1, q2);
    // both candidates lie within half a step of m, so they are at most one step apart
    SmallMultiple(k, p);
    UnitMultiple(k, p);
    // one step apart would make both exact ties, and two even numbers are not one apart
  }

  lemma StepDifference(m: int, p: int, q1: int, q2: int)
    ensures (q2 - q1) * p == (m - q1 * p) - (m - q2 * p)
  {
    assert (q2 - q1) * p == q2 * p - q1 * p;
  }

  lemma UnitMultiple(k: int, p: int)
    ensures k == 0 ==> k * p == 0
    ensures k == 1 ==> k * p == p
    ensures k == -1 ==> k * p == -p
  {
  }

  /** A multiple of p no larger than p in magnitude has a factor of at most one. */
  lemma SmallMultiple(k: int, p: int)
    requires p > 0
    requires Abs(k * p) <= p
    ensures Abs(k) <= 1
  {
    MulMono(Abs(k), 1, p);
    assert Abs(k * p) == Abs(k) * p;
    if Abs(k) >= 2 {
      MulMono(p, 2, Abs(k));
    }
  }

  /** Rounds the non-negative n / p half to even. */
  function RoundMagnitude(n: nat, p: int): (q: nat)
    requires p > 0
    ensures NearestEven(n, p, q)
  {
    var q := n / p;
    var r := n % p;
    DownOrUp(n, p, q, r);
    if 2 * r > p || (2 * r == p && q % 2 == 1) then q + 1 else q
  }

  /** With n == q p + r, q is the half-to-even rounding of n / p unless the
      remainder is above half, or exactly half with q odd, when q + 1 is. */
  lemma DownOrUp(n: int, p: int, q: int, r: int)
    requires p > 0
    requires n == q * p + r && 0 <= r < p
    ensures 2 * r < p || (2 * r == p && q % 2 == 0) ==> NearestEven(n, p, q)
    ensures 2 * r > p || (2 * r == p && q % 2 == 1) ==> NearestEven(n, p, q + 1)
  {
    assert n - q * p == r;
    assert n - (q + 1) * p == r - p;
  }

  /** m / p rounded half to even, symmetric about zero as .NET rounds the magnitude. */
  function DivRoundHalfEven(m: int, p: int): (q: int)
    requires p > 0
    ensures NearestEven(m, p, q)
    ensures p >= 2 ==> Abs(q) <= Abs(m)
  {
    var mag := RoundMagnitude(Abs(m), p);
    MagnitudeBound(Abs(m), p, mag);
    if m < 0 then
      NearestEvenNegate(Abs(m), p, mag);
      -(mag as int)
    else
      mag
  }

  /** Half-to-even rounding is symmetric about zero. */
  lemma NearestEvenNegate(m: int, p: int, q: int)
    requires p > 0
    requires NearestEven(m, p, q)
    ensures NearestEven(-m, p, -q)
  {
    assert (-m) - (-q) * p == -(m - q * p);
  }

  /** With a divisor of at least 2, rounding never enlarges the magnitude. */
  lemma MagnitudeBound(n: nat, p: int, q: nat)
    requires p > 0
    requires NearestEven(n, p, q)
    ensures p >= 2 ==> q <= n
  {
    // 2 (q p - n) <= p, so (2q - 1) p <= 2n, and p >= 2 gives 2q - 1 <= n
    assert 2 * (q * p) - p <= 2 * n;
    assert (2 * q - 1) * p == 2 * (q * p) - p;
    if q >= 1 && p >= 2 {
      MulMono(2 * q - 1, 2, p);
    }
  }

  /** decimal.Round(d, decimals), whose default midpoint mode is half to even.
      A value that already has at most `decimals` fractional digits is returned
      unchanged, scale included. */
  function Round(d: Decimal, decimals: nat): (r: Decimal)
    requires decimals <= MaxScale
    ensures d.scale <= decimals ==> r == d
    ensures d.scale > decimals ==> r.scale == decimals && NearestEven(d.mant, Pow10(d.scale - decimals), r.mant)
    ensures 2 * Abs(Value(r) - Value(d)) <= UnitWeight(decimals)
  {
    if d.scale <= decimals then
      d
    else
      var p := Pow10(d.scale - decimals);
      var q := DivRoundHalfEven(d.mant, p);
      var r: Decimal := Dec(q, decimals);
      RoundError(d, decimals, q);
      r
  }

  /** Round is the only half-to-even rounding: any q nearest to d with ties to
      even is the mantissa Round returns. */
  lemma RoundIsNearestEven(d: Decimal, decimals: nat, q: int)
    requires decimals < d.scale
    requires NearestEven(d.mant, Pow10(d.scale - decimals), q)
    ensures Round(d, decimals) == Dec(q, decimals)
  {
    NearestEvenUnique(d.mant, Pow10(d.scale - decimals), q, Round(d, decimals).mant);
  }

  lemma RoundError(d: Decimal, decimals: nat, q: int)
    requires decimals < d.scale
    requires NearestEven(d.mant, Pow10(d.scale - decimals), q)
    ensures 2 * Abs(Value(Dec(q, decimals)) - Value(d)) <= UnitWeight(decimals)
  {
    var p := Pow10(d.scale - decimals);
    var c := Pow10(MaxScale - d.scale);
    Pow10Add(d.scale - decimals, MaxScale - d.scale);
    ValueIsUnits(d);
    ValueIsUnits(Dec(q, decimals));
    UnitWeightIsPow10(decimals);
    ScaledError(q, p, d.mant, c);
  }

  /** Multiplying both the rounding error and the step by c > 0 keeps the half-step bound. */
  lemma ScaledError(q: int, p: int, m: int, c: nat)
    requires p > 0
    requires 2 * Abs(m - q * p) <= p
    ensures 2 * Abs(q * (p * c) - m * c) <= p * c
  {
    var e := q * p - m;
    assert q * (p * c) - m * c == e * c;
    assert Abs(e * c) == Abs(e) * c;
    MulMono(c, 2 * Abs(e), p);
  }
}
