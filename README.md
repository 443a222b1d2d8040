# StatLibrary statistics, modelled in Dafny

A model of the static `Statistics` class of StatLibrary
(`StatLibrary/Statistics.cs`): descriptive statistics over a numeric array
`T[]`: mean, median, mode ("Modus"), largest and smallest element, range,
weighted mean, and the two sort entry points. It also models the private
checks each public operation runs first:
- the three `DescribeExceptions` overloads;
- the element-type allow-list `IsNumericArray`;
- the rounding-digit check `IsNumberInRange`.

How the model represents the C# code:
- The array is a nullable `array?<int>`.
- The element type `T` is an `ElementKind` tag.
- Results the C# code computes in `double` are exact `real`s.
- A thrown exception is a `Failure` carrying an `Error` value. `ExceptionOf` maps each `Error` to the exception class the code throws for it.

The modules follow the structure of the class:
- `Wrappers`: `Option`, `Result` and `Outcome`.
- `Sequences`: the sums, counts and extremes the statistics are defined by. These stand for LINQ's `Sum`, `Average`, `Min` and `Max`.
- `Sorting`: a reference sort with an ascending/descending flag, and the proof that an ordered permutation is unique. These stand for `Array.Sort`, `OrderBy` and `OrderByDescending`.
- `Validation`: the private region of the class, lines 279-338.
- `Statistics`: the public operations.

Operations that change state keep that form:
- `SortValues` sorts the caller's array in place, and `Median` inherits this.
- `Modus` counts with a loop into a dictionary whose keys keep insertion order, then scans the keys.
- `WeightedMean` accumulates value times weight in a loop.

Each of these methods is proved against a specification function or predicate (`Sort`, `IsFirstMode`, `WeightedAverage`). Lemmas state what those promise.

The model follows the code where its behaviour is easy to overlook:
- `Median` and the one-argument `SortValues` sort the caller's array in place, as `Array.Sort(values)` does. They do not work on a copy.
- Two-array validation does not check each array on its own before comparing lengths. It tests the types first. It then calls `values.Count()`, which throws `ArgumentNullException` on a null array. Next comes the length comparison. An empty array is then reported with `ArgumentNullException` too.
- `Range` subtracts through `dynamic` and converts the result back to `T`. `RangeAsWritten` models this for every element kind:
  - for `sbyte`, `byte`, `short` and `ushort` the result is an `int` with no implicit conversion back to `T`, so no value is returned;
  - `int` and `long` subtract unchecked and can wrap;
  - `decimal` subtraction is checked and can overflow.

  See Findings. `Range` is the exact difference, which the first two cases evidently intended.
- The rounded overloads call `IsNumberInRange(roundDigits)` with its default limits. As written, that check rejects 15 digits (see Findings), and so do `MeanRounded`, `MedianRounded` and `WeightedMeanRounded`.

## Model

| member | source | states |
|---|---|---|
| Validation.ExceptionOf | StatLibrary/Statistics.cs:284-318 | the null checks (lines 286, 304, 316, 318) raise `ArgumentNullException` and every other check `ArgumentException`; the failed conversion of Range's result is a `RuntimeBinderException` and a decimal overflow an `OverflowException` |
| Validation.IsNumericArray | StatLibrary/Statistics.cs:331-337 | the allow-list accepts exactly the eleven numeric element types (`UInt64` appears twice) and nothing else |
| Validation.DescribeExceptions | StatLibrary/Statistics.cs:281-291 | passes iff the type is numeric, the array non-null and non-empty; each failure is reported exactly when the earlier checks passed and its own check fails (not numeric, then null, then empty) |
| Validation.DescribeExceptionsWithArgs | StatLibrary/Statistics.cs:292-305 | an array failure is reported unchanged; otherwise it fails with a null-argument error iff some extra argument is null, and passes iff none is |
| Validation.DescribeExceptionsPaired | StatLibrary/Statistics.cs:307-319 | passes iff both types are numeric, both arrays non-null, of equal and non-zero length; reports not-numeric, length mismatch (only when both arrays exist) and null (a null array, or both empty) exactly in those cases |
| Validation.PairedReportsEmptyAsNull | StatLibrary/Statistics.cs:307-319 | two empty numeric arrays are reported as `ArgumentNullException`, while the single-array check reports one empty array as `ArgumentException` |
| Validation.PairedPassesIffBothPass | StatLibrary/Statistics.cs:307-319 | the two-array check passes iff each array passes the single-array check and their lengths agree |
| Validation.IsNumberInRange | StatLibrary/Statistics.cs:320-328 | as written: passes iff `include` is false or `lLimit <= number < uLimit`; outside `[lLimit, uLimit]` gives the first message, `number == uLimit` the second |
| Validation.DefaultRangeRejectsFifteen | StatLibrary/Statistics.cs:320-328 | with the default limits the check as written accepts only 0..14, rejects 15, and with `include` false accepts anything, e.g. 99 |
| Validation.DigitsInRange | StatLibrary/Statistics.cs:320-328 | the check its messages describe: passes iff `lLimit <= number <= uLimit` (inclusive) or `lLimit <= number < uLimit` (exclusive), failing with the matching message |
| Validation.DefaultRangeIsZeroToFifteen | StatLibrary/Statistics.cs:320-328 | with the default limits the corrected check accepts exactly 0..15; -1 and 16 are out of range |
| Sequences.Minimum | StatLibrary/Statistics.cs:104 | the smallest element: it occurs in the sample and no element is smaller |
| Sequences.Maximum | StatLibrary/Statistics.cs:95 | the largest element: it occurs in the sample and no element is larger |
| Sequences.Average | StatLibrary/Statistics.cs:13 | the mean times the count is the sum |
| Sequences.AverageBetweenExtremes | StatLibrary/Statistics.cs:13 | the mean lies between the smallest and the largest element |
| Sequences.WeightedSumOfEqualWeights | StatLibrary/Statistics.cs:209-213 | with every weight equal to c, the sum of value times weight is c times the sum of the values and the weights sum to c times the count |
| Sequences.WeightedQuotientAtLeast | StatLibrary/Statistics.cs:209-213 | with positive weights, the weights' sum is positive and the weighted quotient is at least the smallest value |
| Sequences.WeightedQuotientAtMost | StatLibrary/Statistics.cs:209-213 | with positive weights, the weights' sum is positive and the weighted quotient is at most the largest value |
| Sorting.Insert | StatLibrary/Statistics.cs:115 | inserting into an ordered sequence keeps it ordered and adds exactly the one element |
| Sorting.Sort | StatLibrary/Statistics.cs:115 | the result is ordered in the requested direction, is a permutation of the input and has its length |
| Sorting.OrderedPermutationUnique | StatLibrary/Statistics.cs:127-129 | two sequences ordered in the same direction with the same elements are equal |
| Sorting.SortIsUnique | StatLibrary/Statistics.cs:127-129 | any ordered permutation of the input is the sort of the input |
| Sorting.DescendingIsReversedAscending | StatLibrary/Statistics.cs:127-129 | the descending sort is the ascending sort read backwards |
| Statistics.Mean | StatLibrary/Statistics.cs:10-14 | a validation failure is returned unchanged; otherwise a mean whose product with the length is the sum of the elements |
| Statistics.MeanBetweenMinAndMax | StatLibrary/Statistics.cs:10-14 | the mean of a valid array lies between its smallest and its largest element |
| Statistics.MeanRounded | StatLibrary/Statistics.cs:18-23 | validation first, then the digit check as written: outside [0, 15] `DigitsOutOfRange(0, 15)`, at 15 `DigitsNotBelowUpper(0, 15)`, for 0..14 the same value as `Mean` |
| Statistics.Max | StatLibrary/Statistics.cs:92-96 | a validation failure is returned unchanged; otherwise an element of the array that no element exceeds |
| Statistics.Min | StatLibrary/Statistics.cs:101-105 | a validation failure is returned unchanged; otherwise an element of the array that exceeds no element |
| Statistics.Range | StatLibrary/Statistics.cs:135 | Max minus Min: never negative, and no difference of two elements is larger |
| Statistics.SubtractWrapped | StatLibrary/Statistics.cs:135 | unchecked signed subtraction in [-half, half): the result stays in that range and is the exact difference or that difference moved by 2 * half |
| Statistics.SubtractAsWritten | StatLibrary/Statistics.cs:135 | `(dynamic)hi - (dynamic)lo` back in `T`: no value for the four narrow kinds, an in-range result equal to the difference or the difference minus 2^32 / 2^64 for `int` / `long`, an overflow for `decimal` past 2^96 - 1, the exact difference otherwise |
| Statistics.RangeAsWritten | StatLibrary/Statistics.cs:135 | a validation failure (from Max) is returned unchanged; otherwise the as-written subtraction of Min from Max |
| Statistics.RangeAsWrittenAgainstRange | StatLibrary/Statistics.cs:135 | on a valid array, against the exact Range: failure for the narrow kinds, wrapped by 0 or -2^32 / -2^64 for `int` / `long`, overflow for `decimal` exactly when the range exceeds 2^96 - 1, equal otherwise |
| Statistics.RangeInt32Overflows | StatLibrary/Statistics.cs:135 | on `{int.MinValue, int.MaxValue}` the as-written Range is -1 where the true range is 2^32 - 1 |
| Statistics.RangeInt64Overflows | StatLibrary/Statistics.cs:135 | on `{long.MinValue, long.MaxValue}` the as-written Range is -1 where the true range is 2^64 - 1 |
| Statistics.RangeOfBytesFails | StatLibrary/Statistics.cs:135 | on the byte array `{1, 3}` the as-written Range raises `RuntimeBinderException` where the range is 2 |
| Statistics.RangeDecimalOverflows | StatLibrary/Statistics.cs:135 | on the widest decimal pair the as-written Range raises `OverflowException` |
| Statistics.SortValues | StatLibrary/Statistics.cs:111-117 | on failure the array is untouched; otherwise the caller's own array is returned, now ordered ascending, holding the same elements, and equal to the reference sort of its old contents |
| Statistics.SortValuesDirected | StatLibrary/Statistics.cs:123-130 | a validation failure is returned unchanged; otherwise a new sequence ordered in the requested direction that is a permutation of the array |
| Statistics.DescendingCopyIsReversed | StatLibrary/Statistics.cs:123-130 | the descending copy is exactly the ascending copy reversed |
| Statistics.MedianOfSorted | StatLibrary/Statistics.cs:33-36 | the median of an ascending sequence lies between its first and its last element |
| Statistics.MedianBetweenMinAndMax | StatLibrary/Statistics.cs:28-37 | the median of a sample lies between its smallest and its largest element |
| Statistics.MedianIsMiddleElement | StatLibrary/Statistics.cs:33-36 | for an odd count the median is an element of the sample; for an even count it is the mean of two elements at different positions |
| Statistics.MedianIgnoresOrder | StatLibrary/Statistics.cs:28-37 | two samples with the same elements have the same sort and the same median |
| Statistics.Median | StatLibrary/Statistics.cs:28-37 | a validation failure leaves the array untouched; otherwise the caller's array ends up sorted ascending, the result is the median of that sorted array and lies between the old minimum and maximum |
| Statistics.MedianRounded | StatLibrary/Statistics.cs:42-52 | validation first, then the digit check as written (`DigitsOutOfRange(0, 15)` outside [0, 15], `DigitsNotBelowUpper(0, 15)` at 15), the array untouched when either fails; for 0..14 the in-place sort and the median |
| Statistics.FirstModeUnique | StatLibrary/Statistics.cs:74-82 | at most one value is the first-occurring most frequent value of a sample |
| Statistics.CountOccurrences | StatLibrary/Statistics.cs:63-72 | the dictionary maps exactly the values of the array to their occurrence counts, and its keys are listed in first-occurrence order |
| Statistics.ModeFromTally | StatLibrary/Statistics.cs:74-82 | the key a strict-`>` scan over the tally keeps is the first-occurring most frequent value of the array |
| Statistics.Modus | StatLibrary/Statistics.cs:58-87 | a validation failure is returned unchanged. Otherwise the result is the most frequent value, ties going to the value met first. With `includeCount`, it is instead a one-entry dictionary from that value to its count |
| Statistics.EqualWeightsGiveMean | StatLibrary/Statistics.cs:206-214 | with one common nonzero weight the weighted mean is finite and equals the arithmetic mean |
| Statistics.PositiveWeightsBounded | StatLibrary/Statistics.cs:206-214 | with positive weights the weighted mean is finite and lies between the smallest and the largest value |
| Statistics.WeightedMean | StatLibrary/Statistics.cs:206-214 | the two-array validation failure is returned unchanged; otherwise the loop's sum over the weights' sum is the reference weighted mean, non-finite when the weights sum to zero |
| Statistics.WeightedMeanRounded | StatLibrary/Statistics.cs:219-229 | two-array validation first, then the digit check as written (`DigitsOutOfRange(0, 15)` outside [0, 15], `DigitsNotBelowUpper(0, 15)` at 15), for 0..14 the same value as `WeightedMean` |

## Left out

- Rounding: `Math.Round(x, digits)` is not modelled. `MeanRounded`, `MedianRounded` and `WeightedMeanRounded` run the source's checks in its order, then return the unrounded value. So the even-length branch of the rounded `Median` (which the source does not round) is not told apart from the odd one.
- StandardDeviation, AverageDeviation, CoefficientOfVariation, GeometricMean and HarmonicMean with their rounded overloads are not modelled. They need square roots, powers and floating-point division by zero, which exact reals do not capture.
- Double precision: `Convert.ToDouble` and `double` arithmetic become exact conversion and exact `real` arithmetic. Rounding error, overflow to infinity and NaN are not modelled. The one exception is a zero weight sum, which the model reports as `NonFinite`.
- Elements are mathematical integers. Fractional `Single`, `Double` and `Decimal` elements are not modelled. The value range of each integer kind and of `decimal` is modelled by `Fits`, but only `RangeAsWritten` asks for it.
- Statistics.Range: is the exact difference, the corrected behaviour. The source's behaviour is `RangeAsWritten`, which covers every element kind except `float` and `double`. For those two, rounding and overflow to infinity are not modelled.
- The rank test (`values.Rank > 1`) is not modelled. A `T[]` always has rank 1, so it never fails.
- `IsSameType`'s comparison of type-name strings is modelled by the `ElementKind` tag.
- `Array.Sort`, `OrderBy` and `OrderByDescending` are modelled by one reference insertion sort. Stability does not arise for plain integers.
- Statistics.Modus: assumes that `Dictionary` enumerates keys in insertion order, which holds for a dictionary without removals. The `dynamic` return type is the tagged `ModeResult`.
- `DescribeExceptions(values, params object[] args)` receives a boxed `int`, which is never null. A null `args` array itself is not modelled.

## Findings

| source | as written | input that shows it | evidently intended | confidence | as-written member | corrected member |
|---|---|---|---|---|---|---|
| StatLibrary/Statistics.cs:320-328 | the `else` binds to the inner `if`: with `include` the number must lie in `[lLimit, uLimit)`, and without it nothing is checked | `roundDigits = 15` is rejected although the message allows up to 15; `IsNumberInRange(99, include: false)` passes | `[lLimit, uLimit]` when inclusive, `[lLimit, uLimit)` otherwise | high, not executed | Validation.DefaultRangeRejectsFifteen | Validation.DefaultRangeIsZeroToFifteen |
| StatLibrary/Statistics.cs:135 | `(dynamic)Max - (dynamic)Min` on `int` elements is an unchecked 32-bit subtraction | `{int.MinValue, int.MaxValue}` gives -1 | the non-negative difference between the largest and smallest element | medium, not executed | Statistics.RangeInt32Overflows | Statistics.Range |
| StatLibrary/Statistics.cs:135 | `(dynamic)Max - (dynamic)Min` on `long` elements is an unchecked 64-bit subtraction | `{long.MinValue, long.MaxValue}` gives -1 | the non-negative difference between the largest and smallest element | medium, not executed | Statistics.RangeInt64Overflows | Statistics.Range |
| StatLibrary/Statistics.cs:135 | on `sbyte`, `byte`, `short` and `ushort` the dynamic subtraction yields an `int`, which has no implicit conversion back to `T`, so the runtime binder throws | the byte array `{1, 3}` raises `RuntimeBinderException` instead of returning 2 | the difference between the largest and smallest element, in `T` | medium, not executed | Statistics.RangeOfBytesFails | Statistics.Range |
