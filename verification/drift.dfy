/** The decimal half of the drift experiment at the start of Program.Main: a
    minuend that gains 0.93 on every iteration and a subtrahend that gains 0.99
    only on iterations whose index is divisible by neither 33 nor 32. The
    counting lemmas show that over 30,690,000 iterations both gain exactly
    28,541,700, so the decimal difference is the announced 10000. */
module Drift {
  import opened Arith
  import opened Decimals

  const Iterations: nat := 30_690_000
  /** The loop counter is a C# int. */
  const MaxInt32: nat := 0x7fff_ffff

  /** The literals 10000m, .93m and .99m of Program.Main: mantissa and scale. */
  const MinuendStart: Decimal := Dec(10_000, 0)
  const MinuendStep: Decimal := Dec(93, 2)
  const SubtrahendStep: Decimal := Dec(99, 2)

  /** The value the program prints as expected, 10000.0. */
  const Expected: Decimal := Dec(100_000, 1)

  /** The filter on the subtrahend's increment. */
  predicate Subtracts(i: int) {
    i % 33 != 0 && i % 32 != 0
  }

  /** How many indices in [0, n) pass the filter. */
  function CountSubtracting(n: nat): nat {
    if n == 0 then 0
    else CountSubtracting(n - 1) + (if Subtracts(n - 1) then 1 else 0)
  }

  /** How many indices in [0, n) are multiples of d. */
  function CountMultiples(n: nat, d: nat): nat
    requires d > 0
  {
    if n == 0 then 0
    else CountMultiples(n - 1, d) + (if (n - 1) % d == 0 then 1 else 0)
  }

  /** [0, n) holds ceil(n / d) multiples of d. */
  lemma {:induction false} CountMultiplesClosedForm(n: nat, d: nat)
    requires d > 0
    ensures CountMultiples(n, d) == (n + d - 1) / d
  {
    if n == 0 {
      DivModUnique(d - 1, d, 0, d - 1);
    } else {
      CountMultiplesClosedForm(n - 1, d);
      DivStep(n + d - 2, d);
      ModShift(n - 1, d);
    }
  }

  /** 32 and 33 are coprime: an index is a multiple of both exactly when it is a multiple of 1056. */
  lemma MultipleOfBoth(i: nat)
    ensures (i % 33 == 0 && i % 32 == 0) <==> i % 1056 == 0
  {
    if i % 33 == 0 && i % 32 == 0 {
      var a, b := i / 33, i / 32;
      // 33a == 32b, so a == 32(b - a) and i == 1056(b - a)
      assert i == 1056 * (b - a);
    }
    if i % 1056 == 0 {
      var c := i / 1056;
      assert i == 33 * (32 * c) && i == 32 * (33 * c);
    }
  }

  /** Inclusion-exclusion: the passing indices are all indices, less the multiples
      of 33 and of 32, plus the multiples of both that were subtracted twice. */
  lemma {:induction false} InclusionExclusion(n: nat)
    ensures CountSubtracting(n) == n - CountMultiples(n, 33) - CountMultiples(n, 32) + CountMultiples(n, 1056)
  {
    if n > 0 {
      InclusionExclusion(n - 1);
      MultipleOfBoth(n - 1);
    }
  }

  /** The closed form of the passing count. */
  lemma CountSubtractingClosedForm(n: nat)
    ensures CountSubtracting(n) == n - (n + 32) / 33 - (n + 31) / 32 + (n + 1055) / 1056
  {
    InclusionExclusion(n);
    CountMultiplesClosedForm(n, 33);
    CountMultiplesClosedForm(n, 32);
    CountMultiplesClosedForm(n, 1056);
  }

  /** Any 1056 consecutive indices hold exactly 992 passing ones (1056 - 33 - 32 + 1). */
  lemma BlockOf1056(a: nat)
    ensures CountSubtracting(a + 1056) == CountSubtracting(a) + 992
  {
    CountSubtractingClosedForm(a);
    CountSubtractingClosedForm(a + 1056);
    DivShift(a + 32, 33, 32);
    DivShift(a + 31, 32, 33);
    DivShift(a + 1055, 1056, 1);
  }

  /** Adding k multiples of d adds k to the quotient. */
  lemma DivShift(x: nat, d: nat, k: nat)
    requires d > 0
    ensures (x + k * d) / d == x / d + k
  {
    assert x + k * d == (x / d + k) * d + x % d;
    DivModUnique(x + k * d, d, x / d + k, x % d);
  }

  /** Exactly 28,830,000 of the 30,690,000 iterations increment the subtrahend. */
  lemma SubtractingCount()
    ensures CountSubtracting(Iterations) == 28_830_000
  {
    CountSubtractingClosedForm(Iterations);
  }

  /** One step of either accumulator once it holds hundredths. */
  lemma AddHundredths(n: int, k: int)
    requires Fits(n) && Fits(k) && Fits(n + k)
    ensures Add(Dec(n, 2), Dec(k, 2)) == Ok(Dec(n + k, 2))
  {
    assert Units(Dec(n, 2), 2) == n && Units(Dec(k, 2), 2) == k;
  }

  /** The first step of either accumulator, from its scale-0 start. */
  lemma FirstSteps()
    ensures Add(MinuendStart, MinuendStep) == Ok(Dec(1_000_093, 2))
    ensures Add(Zero, SubtrahendStep) == Ok(Dec(99, 2))
  {
    assert Units(MinuendStart, 2) == 1_000_000 by {
      assert Pow10(2) == 100;
    }
  }

  /** The drift loop, run for a given number of iterations (Program.Main runs
      Iterations of them). After k iterations the minuend is 10000 + 0.93k and the
      subtrahend is 0.99 times the number of passing indices below k, exactly. */
  method DriftLoop(iterations: nat) returns (minuend: Decimal, subtrahend: Decimal)
    requires iterations <= MaxInt32
    ensures minuend == if iterations == 0 then MinuendStart else Dec(1_000_000 + 93 * iterations, 2)
    ensures subtrahend == if CountSubtracting(iterations) == 0 then Zero else Dec(99 * CountSubtracting(iterations), 2)
  {
    FirstSteps();
    minuend := MinuendStart;
    subtrahend := Zero;
    var i := 0;
    while i < iterations
      invariant i <= iterations
      invariant minuend == if i == 0 then MinuendStart else Dec(1_000_000 + 93 * i, 2)
      invariant subtrahend == if CountSubtracting(i) == 0 then Zero else Dec(99 * CountSubtracting(i), 2)
      invariant CountSubtracting(i) <= i
    {
      if i > 0 {
        AddHundredths(1_000_000 + 93 * i, 93);
      }
      var m := Add(minuend, MinuendStep);
      minuend := m.value;
      if i % 33 != 0 && i % 32 != 0 {
        if CountSubtracting(i) > 0 {
          AddHundredths(99 * CountSubtracting(i), 99);
        }
        var s := Add(subtrahend, SubtrahendStep);
        subtrahend := s.value;
      }
      i := i + 1;
    }
  }

  /** decimalMinuend - decimalSubtrahend after the full run: exactly 10000.00,
      numerically equal to the printed expectation 10000.0. */
  method DecimalDifference() returns (diff: Decimal)
    ensures diff == Dec(1_000_000, 2)
    ensures Value(diff) == Value(Expected)
  {
    var minuend, subtrahend := DriftLoop(Iterations);
    SubtractingCount();
    AddHundredths(1_000_000 + 93 * Iterations, -99 * 28_830_000);
    var d := Sub(minuend, subtrahend);
    diff := d.value;
  }
}
