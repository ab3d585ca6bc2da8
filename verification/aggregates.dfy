/** The decimal accumulators of the aggregation routines in Program.cs: Sums,
    the running totals SimpleMean builds before its single division, and
    CumulativeMean, whose first element is copied without any arithmetic.
    Each routine keeps a full-precision total and a total of the inputs
    rounded to 10 fractional digits; the double accumulator is not modelled. */
module Aggregates {
  import opened Arith
  import opened Decimals

  /** Fractional digits kept by the 10-digit accumulator (decimal.Round(full, 10)). */
  const Digits: nat := 10
  /** The sampler's range [100000, 100000000) and the dataset size. */
  const Lower: nat := 100_000
  const Upper: nat := 100_000_000
  const MeanCount: nat := 100_000_000
  /** One unit in the tenth fractional digit, in 10^-28 units: UnitWeight(Digits), 10^18. */
  const TenDigitStep: nat := 1_000_000_000_000_000_000
  /** The literals One and TenDigitStep are the scale-0 and scale-10 entries of UnitWeight. */
  lemma StepsAreUnitWeights()
    ensures One == UnitWeight(0)
    ensures TenDigitStep == UnitWeight(Digits)
  {
  }

  /** 10^44 in 10^-28 units is 10^16: any total below it has a mantissa of at most 26 digits at scale 10. */
  const ExactBound: nat := 100_000_000_000_000_000_000_000_000_000_000_000_000_000_000

  /** The program's Result record without its double field. */
  datatype Result = Result(full: Decimal, tenDigit: Decimal)

  /** A value the sampler can produce: in [100000, 100000000) with at most 10 fractional digits. */
  predicate IsSample(x: Decimal) {
    x.scale <= Digits && Lower * One <= Value(x) < Upper * One
  }

  predicate AllSamples(xs: seq<Decimal>) {
    forall i :: 0 <= i < |xs| ==> IsSample(xs[i])
  }

  /** The exact mathematical total of xs, in 10^-28 units. */
  function Total(xs: seq<Decimal>): int {
    if |xs| == 0 then 0 else Total(xs[..|xs| - 1]) + Value(xs[|xs| - 1])
  }

  /** The exact total of every element of xs rounded half to even to 10 digits. */
  function RoundedTotal(xs: seq<Decimal>): int {
    if |xs| == 0 then 0 else RoundedTotal(xs[..|xs| - 1]) + Value(Round(xs[|xs| - 1], Digits))
  }

  /** Sums: one pass that adds each value to the full total and its 10-digit
      rounding to the other. The pass stops at the first addition whose exact
      result the decimal type cannot hold. */
  function Sums(xs: seq<Decimal>): (r: Outcome<Result>)
    ensures r.Ok? ==> Value(r.value.full) == Total(xs)
    ensures r.Ok? ==> Value(r.value.tenDigit) == RoundedTotal(xs)
  {
    if |xs| == 0 then
      Ok(Result(Zero, Zero))
    else
      var acc :- Sums(xs[..|xs| - 1]);
      var full := xs[|xs| - 1];
      var dec := Round(full, Digits);
      var fullSum :- Add(acc.full, full);
      var tenDigitSum :- Add(acc.tenDigit, dec);
      Ok(Result(fullSum, tenDigitSum))
  }

  /** Once a prefix has failed, the whole pass fails with the same error. */
  lemma {:induction false} SumsFailurePersists(xs: seq<Decimal>, k: nat)
    requires k <= |xs|
    requires Sums(xs[..k]).Err?
    ensures Sums(xs) == Err(Sums(xs[..k]).error)
    decreases |xs|
  {
    if k < |xs| {
      var prefix := xs[..|xs| - 1];
      assert prefix[..k] == xs[..k];
      SumsFailurePersists(prefix, k);
    } else {
      assert xs[..k] == xs;
    }
  }

  /** The running totals of samples stay non-negative and below |xs| * 100000000. */
  lemma {:induction false} TotalBounds(xs: seq<Decimal>)
    requires AllSamples(xs)
    ensures 0 <= Total(xs) <= |xs| * (Upper * One)
  {
    if |xs| > 0 {
      var prefix := xs[..|xs| - 1];
      assert AllSamples(prefix) by {
        forall i | 0 <= i < |prefix| ensures IsSample(prefix[i]) {
          assert prefix[i] == xs[i];
        }
      }
      TotalBounds(prefix);
      assert IsSample(xs[|xs| - 1]);
    }
  }

  /** Two decimals with at most 10 fractional digits add exactly when their
      total is below 10^16 in magnitude. */
  lemma AddFitsAtTenDigits(a: Decimal, b: Decimal)
    requires a.scale <= Digits && b.scale <= Digits
    requires Abs(Value(a) + Value(b)) < ExactBound
    ensures Add(a, b).Ok?
  {
    var s := Max(a.scale, b.scale);
    var m := Units(a, s) + Units(b, s);
    AlignedSum(a, b, s);
    MantissaBound(m, UnitWeight(s));
  }

  /** A value below 10^44 units, written with a step of at least 10^18 units,
      needs a mantissa below 10^26 < 2^96. */
  lemma MantissaBound(m: int, w: nat)
    requires w >= TenDigitStep
    requires Abs(m * w) < ExactBound
    ensures Fits(m)
  {
    assert Abs(m * w) == Abs(m) * w;
    MulMono(Abs(m), TenDigitStep, w);
  }

  /** For at most 100,000,000 samples every addition in Sums is exact, the
      rounding to 10 digits changes nothing, and both totals equal the exact sum. */
  lemma {:induction false} SumsExactForSamples(xs: seq<Decimal>)
    requires AllSamples(xs)
    requires |xs| <= MeanCount
    ensures Sums(xs).Ok?
    ensures Sums(xs).value.full == Sums(xs).value.tenDigit
    ensures Sums(xs).value.full.scale <= Digits
    ensures Value(Sums(xs).value.full) == Total(xs)
  {
    if |xs| > 0 {
      var prefix := xs[..|xs| - 1];
      assert AllSamples(prefix) by {
        forall i | 0 <= i < |prefix| ensures IsSample(prefix[i]) {
          assert prefix[i] == xs[i];
        }
      }
      SumsExactForSamples(prefix);
      TotalBounds(prefix);
      var acc := Sums(prefix).value;
      var x := xs[|xs| - 1];
      assert IsSample(x);
      assert Round(x, Digits) == x;
      assert (|xs| - 1) * (Upper * One) + Upper * One <= ExactBound;
      AddFitsAtTenDigits(acc.full, x);
    }
  }

  /** When no input has more than 10 fractional digits, rounding each to 10
      digits changes nothing and the two totals coincide. */
  lemma {:induction false} RoundedTotalOfTenDigitInputs(xs: seq<Decimal>)
    requires forall i :: 0 <= i < |xs| ==> xs[i].scale <= Digits
    ensures RoundedTotal(xs) == Total(xs)
  {
    if |xs| > 0 {
      var prefix := xs[..|xs| - 1];
      assert forall i :: 0 <= i < |prefix| ==> prefix[i] == xs[i];
      RoundedTotalOfTenDigitInputs(prefix);
    }
  }

  /** The two totals of Sums drift apart by at most half a unit in the tenth
      fractional digit per input. */
  lemma {:induction false} RoundingDrift(xs: seq<Decimal>)
    ensures 2 * Abs(Total(xs) - RoundedTotal(xs)) <= |xs| * TenDigitStep
  {
    StepsAreUnitWeights();
    if |xs| > 0 {
      RoundingDrift(xs[..|xs| - 1]);
    }
  }

  /** The full and 10-digit fields of a successful Sums differ by at most half
      a unit in the tenth fractional digit per input. */
  lemma {:induction false} SumsFieldsClose(xs: seq<Decimal>)
    requires Sums(xs).Ok?
    ensures 2 * Abs(Value(Sums(xs).value.full) - Value(Sums(xs).value.tenDigit)) <= |xs| * TenDigitStep
  {
    var totals := Sums(xs).value;
    assert Value(totals.full) - Value(totals.tenDigit) == Total(xs) - RoundedTotal(xs);
    RoundingDrift(xs);
  }

  /** SimpleMean: the same two running totals as Sums, each divided once by the
      count at the end. Decimal division is not part of this model; `divide`
      stands for it. With no input the division by zero raises. */
  method SimpleMean(xs: seq<Decimal>, divide: (Decimal, nat) -> Decimal) returns (r: Outcome<Result>)
    ensures Sums(xs).Err? ==> r == Err(Sums(xs).error)
    ensures |xs| == 0 ==> r == Err(DivideByZero)
    ensures Sums(xs).Ok? && |xs| > 0 ==>
      r == Ok(Result(divide(Sums(xs).value.full, |xs|), divide(Sums(xs).value.tenDigit, |xs|)))
  {
    var fullSum := Zero;
    var tenDigitSum := Zero;
    var i := 0;
    while i < |xs|
      invariant i <= |xs|
      invariant Sums(xs[..i]) == Ok(Result(fullSum, tenDigitSum))
    {
      var full := xs[i];
      var dec := Round(full, Digits);
      assert xs[..i + 1][..i] == xs[..i];
      var f := Add(fullSum, full);
      if f.Err? {
        SumsFailurePersists(xs, i + 1);
        return Err(f.error);
      }
      var t := Add(tenDigitSum, dec);
      if t.Err? {
        SumsFailurePersists(xs, i + 1);
        return Err(t.error);
      }
      fullSum, tenDigitSum := f.value, t.value;
      i := i + 1;
    }
    assert xs[..i] == xs;
    if |xs| == 0 {
      return Err(DivideByZero);
    }
    return Ok(Result(divide(fullSum, |xs|), divide(tenDigitSum, |xs|)));
  }

  /** CumulativeMean: the i-th value (from 1) updates each mean by the recurrence
      mean * (i - 1) / i + value / i, except the first, which becomes the mean
      as it is. The recurrence multiplies and divides, which this model does not
      define; `recurrence(mean, i, value)` stands for it. */
  function CumulativeMean(xs: seq<Decimal>, recurrence: (Decimal, nat, Decimal) -> Decimal): (r: Result)
    ensures |xs| == 0 ==> Value(r.full) == 0 && Value(r.tenDigit) == 0
    ensures |xs| == 1 ==> Value(r.full) == Total(xs)
    ensures |xs| == 1 ==> 2 * Abs(Value(r.tenDigit) - Value(r.full)) <= TenDigitStep
    ensures |xs| == 1 && IsSample(xs[0]) ==> r.tenDigit == r.full
    ensures |xs| == 1 ==> r == Result(xs[0], Round(xs[0], Digits))
  {
    if |xs| == 0 then
      Result(Zero, Zero)
    else
      var prev := CumulativeMean(xs[..|xs| - 1], recurrence);
      var i := |xs|;
      var full := xs[i - 1];
      var dec := Round(full, Digits);
      Result(if i == 1 then full else recurrence(prev.full, i, full),
             if i == 1 then dec else recurrence(prev.tenDigit, i, dec))
  }

  /** No recurrence step is taken for a list of at most one element: the
      result is the same whatever the recurrence computes. */
  lemma CumulativeMeanFirstIsCopied(xs: seq<Decimal>, f: (Decimal, nat, Decimal) -> Decimal, g: (Decimal, nat, Decimal) -> Decimal)
    requires |xs| <= 1
    ensures CumulativeMean(xs, f) == CumulativeMean(xs, g)
  {
  }
}
