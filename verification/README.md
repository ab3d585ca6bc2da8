# Exact decimal arithmetic of the FloatingPointTests harness

The program compares `System.Decimal` against `double` in two experiments:

- a drift loop, in which a minuend gains 0.93 on every one of 30,690,000 iterations and a subtrahend gains 0.99 on the iterations whose index is divisible by neither 33 nor 32;
- four aggregation routines (`Sums`, `CumulativeMean`, `PartialMean`, `SimpleMean`) over 100,000,000 random values in [100000, 100000000) with 10 fractional digits.

This project models the part of both experiments that is exact decimal arithmetic:

- the decimal side of the drift loop;
- the decimal running totals of `Sums` and `SimpleMean`;
- the first-element branch of `CumulativeMean`;
- `decimal.Round(x, 10)`.

It proves the headline fact of the drift experiment: the decimal difference is exactly 10000 (printed as `10000.00`), the value the program announces as expected.

Modules:

- `Arith`: powers of ten, and the uniqueness of quotient and remainder.
- `Decimals`: `System.Decimal` as a mantissa with `|mant| < 2^96` and a scale in 0..28. `Value(d)` is the exact value as an integer count of 10^-28. `Add` and `Sub` are exact when the aligned mantissa fits; otherwise they report an error. `Round` is `decimal.Round(d, k)` with .NET's default half-to-even midpoint mode. `NearestEven` describes that rounding independently of `Round`.
- `Drift`: the decimal drift loop as an imperative method with loop invariants. The count of indices that pass the filter is a recursive reference function, `CountSubtracting`. An inclusion–exclusion closed form, `n - ceil(n/33) - ceil(n/32) + ceil(n/1056)`, turns that count into 28,830,000.
- `Aggregates`: the `Result` record without its double field. `Sums` is a left fold that stops at the first failing addition. `Total` and `RoundedTotal` are reference totals. `SimpleMean` is the program's imperative loop, proved to build exactly the totals of `Sums`. `CumulativeMean` is modelled with its recurrence as a parameter.

Decimal multiplication and division are not defined in this model. `System.Decimal` rounds their results to 28–29 significant digits. Where a routine divides, the division is a function parameter:

- `divide` in `SimpleMean`;
- `recurrence` for the `CumulativeMean` update `mean * (i - 1) / i + value / i`.

The contracts therefore say what is computed before the division and, for `SimpleMean`, that the division is applied exactly once, to those totals; for `CumulativeMean`, that no division happens for at most one value.

The sampler is an external library (`Uniform.Decimal` driven by `ChaCha`). Where a lemma needs to know what it produces, it assumes the precondition `IsSample`: each value lies in [100000, 100000000) and has at most 10 fractional digits. The range is the sampler's argument (Program.cs:8); the 10-digit bound is an assumption taken from the comment at Program.cs:7, since the code itself rounds every input to 10 digits (Program.cs:85, 109, 133, 155) and documents the full field as the total of full-precision inputs (Program.cs:178, 184). `Sums`, `SimpleMean` and `CumulativeMean` themselves take arbitrary decimals.

## Model

| member | source | states |
|---|---|---|
| Decimals.Add | Program.cs:89-90 | a decimal `+=` that succeeds yields exactly the sum of the two values, at the larger of the two scales; it succeeds exactly when that sum's mantissa fits 96 bits; `Overflow` is reported exactly when the integer part of the exact result needs more than 96 bits |
| Decimals.Sub | Program.cs:27 | a decimal subtraction that succeeds yields exactly the difference of the values, at the larger scale; it succeeds exactly when that difference's mantissa fits 96 bits; `Overflow` is reported exactly when the integer part of the exact result needs more than 96 bits |
| Decimals.Round | Program.cs:85 | `decimal.Round(full, 10)` returns a value with at most 10 fractional digits unchanged; otherwise its mantissa at scale 10 is the nearest one with ties to even, and the result is within half a unit in the 10th digit of the input |
| Decimals.RoundIsNearestEven | Program.cs:85 | conversely, any mantissa that is nearest with ties to even is the one `Round` returns, so `Round` is exactly round-half-to-even |
| Decimals.NearestEvenUnique | Program.cs:85 | at most one integer is the half-to-even rounding of a quotient |
| Decimals.DivRoundHalfEven | Program.cs:85 | the mantissa rounding used by `Round` gives the nearest integer with ties to even, rounds negative values symmetrically, and never enlarges the magnitude, so the result still fits 96 bits |
| Drift.DriftLoop | Program.cs:12-25 | after k ≥ 1 iterations the decimal minuend is exactly 10000 + 0.93·k, held as mantissa 1,000,000 + 93k at scale 2; the decimal subtrahend is exactly 0.99·c, held as mantissa 99c at scale 2, where c counts the indices below k divisible by neither 33 nor 32; before any increment both keep their scale-0 start values 10000 and 0 |
| Drift.DecimalDifference | Program.cs:27-30 | after 30,690,000 iterations `decimalMinuend - decimalSubtrahend` is exactly 10000.00, numerically equal to the announced 10000.0 |
| Drift.InclusionExclusion | Program.cs:16-20 | the number of passing indices in [0, n) is n minus the multiples of 33, minus the multiples of 32, plus the multiples of 1056 |
| Drift.CountMultiplesClosedForm | Program.cs:16-20 | [0, n) contains ceil(n / d) multiples of d |
| Drift.MultipleOfBoth | Program.cs:20 | an index is divisible by both 33 and 32 exactly when it is divisible by 1056 |
| Drift.CountSubtractingClosedForm | Program.cs:16-20 | the passing count in [0, n) is n − ceil(n/33) − ceil(n/32) + ceil(n/1056) |
| Drift.BlockOf1056 | Program.cs:16-20 | any 1056 consecutive indices contain exactly 992 that pass the filter |
| Drift.SubtractingCount | Program.cs:16-20 | exactly 28,830,000 of the 30,690,000 iterations increment the subtrahend |
| Aggregates.Sums | Program.cs:74-95 | when no addition fails, the full field is the exact total of the inputs and the 10-digit field is the exact total of the inputs each rounded to 10 digits |
| Aggregates.SumsFailurePersists | Program.cs:83-92 | once an addition in the loop fails, the whole routine fails with that error |
| Aggregates.SumsExactForSamples | Program.cs:7-8 | for at most 100,000,000 values in [100000, 100000000) with at most 10 digits, no addition in `Sums` fails, both fields are equal, and they hold the exact total |
| Aggregates.RoundedTotalOfTenDigitInputs | Program.cs:85-90 | when every input has at most 10 fractional digits, the total of the rounded inputs equals the total of the inputs |
| Aggregates.RoundingDrift | Program.cs:85-90 | the total of the inputs and the total of their 10-digit roundings differ by at most half a unit in the 10th digit per input |
| Aggregates.SumsFieldsClose | Program.cs:89-94 | the full and 10-digit fields returned by `Sums` differ by at most half a unit in the 10th digit per input |
| Aggregates.TotalBounds | Program.cs:7-8 | the exact total of n sampled values lies in [0, n·100000000] |
| Aggregates.AddFitsAtTenDigits | Program.cs:89-90 | two decimals with at most 10 fractional digits whose sum is below 10^16 in magnitude add without error |
| Aggregates.SimpleMean | Program.cs:144-163 | `SimpleMean` fails with the error `Sums` would fail with; fails with `DivideByZero` for an empty list; otherwise it divides, once each, the very totals `Sums` returns by the count |
| Aggregates.CumulativeMean | Program.cs:97-120 | with no values both means are 0; for one value the full mean is that value itself and the 10-digit mean is `decimal.Round(value, 10)`, hence within half a unit in the 10th digit of it; for one sampled value the two means coincide |
| Aggregates.CumulativeMeanFirstIsCopied | Program.cs:113-114 | for at most one value the result does not depend on the recurrence: no multiplication or division takes place |

## Left out

- All `double` arithmetic (Program.cs:14-15, 19, 23, 28, 40 and every `doub` accumulator). It is IEEE-754 binary floating point, whose drift is the point of the program. The `Result` record therefore has no `Binary` field.
- `PartialMean` (Program.cs:122-142): every step divides by the count, and decimal division rounds in a way not modelled here.
- The compound-interest loop (Program.cs:34-44): decimal and double multiplication and division.
- The random dataset (Program.cs:8, 46-53): `ChaCha` and `Uniform.Decimal` are an external library. `IsSample` states the sampler's range and, as an assumption taken from the comment at Program.cs:7, at most 10 fractional digits.
- Console output, `G17` formatting, `Stopwatch` timing and the pre-sized `List` (Program.cs:30-32, 43-44, 51, 55-71, 166-173): presentation and resources.
- Decimals.Add: when the exact sum does not fit 96 bits at a scale above 0, .NET silently rounds it to fewer fractional digits. The model reports `Inexact` instead. It also does not model the boundary case where that rounding carries the integer part up to 2^96. The drift loop never reaches either case (`DriftLoop` proves it), nor does `Sums` for at most 100,000,000 inputs satisfying `IsSample` (`SumsExactForSamples` proves it). Inputs with more fractional digits, about 20 say, can make an addition in `Sums` exceed 96 bits; there the model returns `Inexact` where .NET rounds.
- Decimals.Sub: defined as `Add(a, Negate(b))`, so the same gap applies: where the exact difference fits 96 bits only at a lower scale, .NET rounds and the model reports `Inexact`. The subtraction at Program.cs:27 never reaches this case; `DecimalDifference` proves it.
- Decimals.Round: requires `decimals <= 28`, where .NET throws `ArgumentOutOfRangeException`; the program only passes 10. The sign of a rounded zero (.NET's negative zero) is not represented.
- Aggregates.SimpleMean: the final `decimal` division is the parameter `divide`; its rounding is not modelled.
- Aggregates.CumulativeMean: the update for the second and later values is the parameter `recurrence`; its rounding is not modelled.
- Drift.DriftLoop: takes the iteration count as a parameter, bounded by the `int` loop counter; the program fixes it at 30,690,000, which `DecimalDifference` uses.

## Notes on the code as written

- The decimal difference has scale 2, so the program prints `10000.00` on the line after `Expected Difference: 10000.0`. The two values are numerically equal, which `DecimalDifference` states.
- Only `Sums` converts the raw value to `double` (Program.cs:86); `CumulativeMean`, `PartialMean` and `SimpleMean` convert the rounded value (Program.cs:110, 134, 156). This affects only the `double` fields, which are left out.
- Decimal overflow is not handled by the code. The runtime raises `OverflowException`, which the model reports as the error `Overflow`. An empty list makes `SimpleMean` divide by a zero count, which the runtime reports as `DivideByZeroException`; the model reports it as `DivideByZero`. `Sums`, `CumulativeMean` and `PartialMean` return zeros for an empty list.
