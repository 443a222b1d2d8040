/**
 * The public operations of the static Statistics class over a T[] argument,
 * modelled as an element kind plus a nullable array of integers. An exception
 * raised by a check is a Failure carrying its reason.
 */
module Statistics {
  import opened Wrappers
  import opened Sequences
  import opened Sorting
  import opened Validation

  /** A double-precision quotient: finite, or an infinity or NaN after dividing by zero. */
  datatype Quotient = Finite(value: real) | NonFinite

  /** What Modus returns: the value alone, or a one-entry dictionary from the value to its count. */
  datatype ModeResult = Value(value: int) | Tally(counts: map<int, nat>)

  // ---------------------------------------------------------------- Mean

  /** The arithmetic mean: sum over count, between the smallest and the largest element. */
  function Mean(kind: ElementKind, values: array?<int>): (r: Result<real, Error>)
    reads values
    ensures DescribeExceptions(kind, values).Fail? ==> r == Failure(DescribeExceptions(kind, values).error)
    ensures DescribeExceptions(kind, values).Pass? ==>
      && r.Success?
      && r.value * (values.Length as real) == Sum(values[..]) as real
  {
    match DescribeExceptions(kind, values)
    case Fail(e) => Failure(e)
    case Pass => Success(Average(values[..]))
  }

  /** The mean of a valid array lies between its smallest and its largest element. */
  lemma MeanBetweenMinAndMax(kind: ElementKind, values: array?<int>)
    requires DescribeExceptions(kind, values).Pass?
    ensures Mean(kind, values).Success?
    ensures Minimum(values[..]) as real <= Mean(kind, values).value <= Maximum(values[..]) as real
  {
    AverageBetweenExtremes(values[..]);
  }

  /**
   * Mean with a number of rounding digits: validation with the digits as an
   * extra argument, then the digit check with its default limits (which, as
   * written, rejects 15), then the (unrounded) mean.
   */
  function MeanRounded(kind: ElementKind, values: array?<int>, roundDigits: int): (r: Result<real, Error>)
    reads values
    ensures DescribeExceptions(kind, values).Fail? ==> r == Failure(DescribeExceptions(kind, values).error)
    ensures DescribeExceptions(kind, values).Pass? && !(0 <= roundDigits <= 15) ==>
      r == Failure(DigitsOutOfRange(0, 15))
    ensures DescribeExceptions(kind, values).Pass? && roundDigits == 15 ==>
      r == Failure(DigitsNotBelowUpper(0, 15))
    ensures DescribeExceptions(kind, values).Pass? && 0 <= roundDigits < 15 ==> r == Mean(kind, values)
  {
    match DescribeExceptionsWithArgs(kind, values, [Some(roundDigits)])
    case Fail(e) => Failure(e)
    case Pass =>
      match IsNumberInRange(roundDigits)
      case Fail(e) => Failure(e)
      case Pass => Success(Average(values[..]))
  }

  // ---------------------------------------------------------------- Max, Min, Range

  /** The largest element: an element of the array that no element exceeds. */
  function Max(kind: ElementKind, values: array?<int>): (r: Result<int, Error>)
    reads values
    ensures DescribeExceptions(kind, values).Fail? ==> r == Failure(DescribeExceptions(kind, values).error)
    ensures DescribeExceptions(kind, values).Pass? ==>
      && r.Success?
      && r.value in values[..]
      && forall i | 0 <= i < values.Length :: values[i] <= r.value
  {
    match DescribeExceptions(kind, values)
    case Fail(e) => Failure(e)
    case Pass => Success(Maximum(values[..]))
  }

  /** The smallest element: an element of the array that exceeds no element. */
  function Min(kind: ElementKind, values: array?<int>): (r: Result<int, Error>)
    reads values
    ensures DescribeExceptions(kind, values).Fail? ==> r == Failure(DescribeExceptions(kind, values).error)
    ensures DescribeExceptions(kind, values).Pass? ==>
      && r.Success?
      && r.value in values[..]
      && forall i | 0 <= i < values.Length :: r.value <= values[i]
  {
    match DescribeExceptions(kind, values)
    case Fail(e) => Failure(e)
    case Pass => Success(Minimum(values[..]))
  }

  /** Max minus Min: never negative, and no difference of two elements exceeds it. */
  function Range(kind: ElementKind, values: array?<int>): (r: Result<int, Error>)
    reads values
    ensures DescribeExceptions(kind, values).Fail? ==> r == Failure(DescribeExceptions(kind, values).error)
    ensures DescribeExceptions(kind, values).Pass? ==>
      && r.Success?
      && r.value == Max(kind, values).value - Min(kind, values).value
      && r.value >= 0
      && forall i, j | 0 <= i < values.Length && 0 <= j < values.Length :: values[i] - values[j] <= r.value
  {
    match Max(kind, values)
    case Failure(e) => Failure(e)
    case Success(hi) =>
      match Min(kind, values)
      case Failure(e) => Failure(e)
      case Success(lo) => Success(hi - lo)
  }

  /** The largest magnitude a System.Decimal holds: 2^96 - 1. */
  const DecimalMax: int := 0xffff_ffff_ffff_ffff_ffff_ffff

  /** The values an element of the given kind can hold; the floating-point kinds are not bounded here. */
  predicate Fits(kind: ElementKind, x: int) {
    match kind
    case SByte => -0x80 <= x < 0x80
    case Byte => 0 <= x < 0x100
    case Int16 => -0x8000 <= x < 0x8000
    case UInt16 => 0 <= x < 0x1_0000
    case Int32 => -0x8000_0000 <= x < 0x8000_0000
    case UInt32 => 0 <= x < 0x1_0000_0000
    case Int64 => -0x8000_0000_0000_0000 <= x < 0x8000_0000_0000_0000
    case UInt64 => 0 <= x < 0x1_0000_0000_0000_0000
    case Decimal => -DecimalMax <= x <= DecimalMax
    case _ => true
  }

  /** The kinds whose dynamic subtraction yields an int, which has no implicit conversion back to T. */
  predicate IsNarrow(kind: ElementKind) {
    kind == SByte || kind == Byte || kind == Int16 || kind == UInt16
  }

  /** 2^32 for int, 2^64 for long: the modulus their unchecked subtraction wraps by. */
  function WrapModulus(kind: ElementKind): int {
    if kind == Int32 then 0x1_0000_0000 else 0x1_0000_0000_0000_0000
  }

  /**
   * Unchecked subtraction of two signed values in [-half, half): the exact
   * difference, or that difference moved by 2 * half back into the range.
   */
  function SubtractWrapped(a: int, b: int, half: int): (d: int)
    requires half > 0 && -half <= a < half && -half <= b < half
    ensures -half <= d < half
    ensures d == a - b || d == a - b - 2 * half || d == a - b + 2 * half
  {
    var x := a - b;
    if x >= half then x - 2 * half
    else if x < -half then x + 2 * half
    else x
  }

  /**
   * `(dynamic)hi - (dynamic)lo` converted back to T, for hi not below lo. For
   * sbyte, byte, short and ushort the subtraction yields an int that does not
   * convert back to T; int and long subtract unchecked and wrap; decimal
   * subtraction is checked and overflows; uint and ulong cannot wrap because hi
   * is not below lo.
   */
  function SubtractAsWritten(kind: ElementKind, hi: int, lo: int): (r: Result<int, Error>)
    requires Fits(kind, hi) && Fits(kind, lo) && lo <= hi
    ensures IsNarrow(kind) ==> r == Failure(ResultNotConvertible)
    ensures kind == Int32 || kind == Int64 ==>
      r.Success? && Fits(kind, r.value) && (r.value == hi - lo || r.value == hi - lo - WrapModulus(kind))
    ensures kind == Decimal ==> r == if hi - lo <= DecimalMax then Success(hi - lo) else Failure(ArithmeticOverflow)
    ensures kind == UInt32 || kind == UInt64 || kind == Single || kind == Double ==> r == Success(hi - lo)
  {
    match kind
    case SByte | Byte | Int16 | UInt16 => Failure(ResultNotConvertible)
    case Int32 => Success(SubtractWrapped(hi, lo, 0x8000_0000))
    case Int64 => Success(SubtractWrapped(hi, lo, 0x8000_0000_0000_0000))
    case Decimal => if hi - lo <= DecimalMax then Success(hi - lo) else Failure(ArithmeticOverflow)
    case _ => Success(hi - lo)
  }

  /** Range as written: Max (which validates first), then Min, then their subtraction as written. */
  function RangeAsWritten(kind: ElementKind, values: array?<int>): (r: Result<int, Error>)
    reads values
    requires values != null ==> forall i | 0 <= i < values.Length :: Fits(kind, values[i])
    ensures DescribeExceptions(kind, values).Fail? ==> r == Failure(DescribeExceptions(kind, values).error)
    ensures DescribeExceptions(kind, values).Pass? ==>
      r == SubtractAsWritten(kind, Max(kind, values).value, Min(kind, values).value)
  {
    match DescribeExceptions(kind, values)
    case Fail(e) => Failure(e)
    case Pass =>
      var hi, lo := Maximum(values[..]), Minimum(values[..]);
      assert Fits(kind, hi) && Fits(kind, lo);
      SubtractAsWritten(kind, hi, lo)
  }

  /**
   * Range as written on a valid array, against the exact Range: no value for the
   * narrow kinds, the wrapped range for int and long, an overflow for decimal
   * past 2^96 - 1, and the exact range otherwise.
   */
  lemma RangeAsWrittenAgainstRange(kind: ElementKind, values: array<int>)
    requires forall i | 0 <= i < values.Length :: Fits(kind, values[i])
    requires DescribeExceptions(kind, values).Pass?
    ensures IsNarrow(kind) ==> RangeAsWritten(kind, values) == Failure(ResultNotConvertible)
    ensures kind == Int32 || kind == Int64 ==>
      && RangeAsWritten(kind, values).Success?
      && Fits(kind, RangeAsWritten(kind, values).value)
      && (RangeAsWritten(kind, values).value - Range(kind, values).value) in {0, -WrapModulus(kind)}
    ensures kind == Decimal ==>
      (RangeAsWritten(kind, values) == Failure(ArithmeticOverflow) <==> Range(kind, values).value > DecimalMax)
    ensures kind == UInt32 || kind == UInt64 || kind == Single || kind == Double ==>
      RangeAsWritten(kind, values) == Range(kind, values)
  {
    var hi, lo := Max(kind, values).value, Min(kind, values).value;
    assert Range(kind, values).value == hi - lo;
    assert RangeAsWritten(kind, values) == SubtractAsWritten(kind, hi, lo);
  }

  /** The widest int range wraps: the as-written Range is -1 where the range is 2^32 - 1. */
  lemma RangeInt32Overflows(values: array<int>)
    requires values.Length == 2 && values[0] == -0x8000_0000 && values[1] == 0x7fff_ffff
    ensures RangeAsWritten(Int32, values) == Success(-1)
    ensures Range(Int32, values) == Success(0xffff_ffff)
  {
    assert values[..] == [-0x8000_0000, 0x7fff_ffff];
  }

  /** The widest long range wraps: the as-written Range is -1 where the range is 2^64 - 1. */
  lemma RangeInt64Overflows(values: array<int>)
    requires values.Length == 2 && values[0] == -0x8000_0000_0000_0000 && values[1] == 0x7fff_ffff_ffff_ffff
    ensures RangeAsWritten(Int64, values) == Success(-1)
    ensures Range(Int64, values) == Success(0xffff_ffff_ffff_ffff)
  {
    assert values[..] == [-0x8000_0000_0000_0000, 0x7fff_ffff_ffff_ffff];
  }

  /** Range never returns for a valid byte array: {1, 3} has range 2, but the as-written Range fails. */
  lemma RangeOfBytesFails(values: array<int>)
    requires values.Length == 2 && values[0] == 1 && values[1] == 3
    ensures RangeAsWritten(Byte, values) == Failure(ResultNotConvertible)
    ensures ExceptionOf(RangeAsWritten(Byte, values).error) == RuntimeBinderException
    ensures Range(Byte, values) == Success(2)
  {
    assert values[..] == [1, 3];
  }

  /** The widest decimal range overflows the checked decimal subtraction. */
  lemma RangeDecimalOverflows(values: array<int>)
    requires values.Length == 2 && values[0] == -DecimalMax && values[1] == DecimalMax
    ensures RangeAsWritten(Decimal, values) == Failure(ArithmeticOverflow)
    ensures ExceptionOf(RangeAsWritten(Decimal, values).error) == OverflowException
  {
    assert values[..] == [-DecimalMax, DecimalMax];
  }

  // ---------------------------------------------------------------- Sorting

  /** Sorts the caller's array in place, ascending, and returns that same array. */
  method SortValues(kind: ElementKind, values: array?<int>) returns (r: Result<array<int>, Error>)
    modifies values
    ensures DescribeExceptions(kind, values).Fail? ==> r == Failure(DescribeExceptions(kind, values).error)
    ensures DescribeExceptions(kind, values).Fail? && values != null ==> values[..] == old(values[..])
    ensures DescribeExceptions(kind, values).Pass? ==>
      && r == Success(values)
      && Ordered(values[..], true)
      && multiset(values[..]) == multiset(old(values[..]))
      && values[..] == Sort(old(values[..]), true)
  {
    var check := DescribeExceptions(kind, values);
    if check.Fail? {
      return Failure(check.error);
    }
    var sorted := Sort(values[..], true);
    for i := 0 to values.Length
      invariant forall j | 0 <= j < i :: values[j] == sorted[j]
    {
      values[i] := sorted[i];
    }
    assert values[..] == sorted;
    r := Success(values);
  }

  /** A new array holding the elements ascending or descending; the caller's array is not touched. */
  function SortValuesDirected(kind: ElementKind, values: array?<int>, asc: bool): (r: Result<seq<int>, Error>)
    reads values
    ensures DescribeExceptions(kind, values).Fail? ==> r == Failure(DescribeExceptions(kind, values).error)
    ensures DescribeExceptions(kind, values).Pass? ==>
      && r.Success?
      && Ordered(r.value, asc)
      && multiset(r.value) == multiset(values[..])
  {
    match DescribeExceptions(kind, values)
    case Fail(e) => Failure(e)
    case Pass => Success(Sort(values[..], asc))
  }

  /** The descending copy is the ascending copy read backwards. */
  lemma DescendingCopyIsReversed(kind: ElementKind, values: array<int>)
    requires DescribeExceptions(kind, values).Pass?
    ensures SortValuesDirected(kind, values, false).value == Reverse(SortValuesDirected(kind, values, true).value)
  {
    DescendingIsReversedAscending(values[..]);
  }

  // ---------------------------------------------------------------- Median

  /** The median of an ascending sequence: its middle element, or the mean of its two middle elements. */
  function MedianOfSorted(t: seq<int>): (m: real)
    requires t != [] && Ordered(t, true)
    ensures t[0] as real <= m <= t[|t| - 1] as real
  {
    var mid := |t| / 2;
    if |t| % 2 == 0 then (t[mid] as real + t[mid - 1] as real) / 2.0 else t[mid] as real
  }

  /** The median of a sample lies between its smallest and its largest element. */
  lemma MedianBetweenMinAndMax(s: seq<int>)
    requires s != []
    ensures Minimum(s) as real <= MedianOfSorted(Sort(s, true)) <= Maximum(s) as real
  {
    var t := Sort(s, true);
    assert t[0] in multiset(s) && t[|t| - 1] in multiset(s);
  }

  /** For an odd count the median is an element of the sample; for an even count it is the mean of two of them. */
  lemma MedianIsMiddleElement(s: seq<int>)
    requires s != []
    ensures |s| % 2 == 1 ==> exists i | 0 <= i < |s| :: MedianOfSorted(Sort(s, true)) == s[i] as real
    ensures |s| % 2 == 0 ==> exists i, j | 0 <= i < |s| && 0 <= j < |s| && i != j ::
      MedianOfSorted(Sort(s, true)) == (s[i] as real + s[j] as real) / 2.0
  {
    if |s| % 2 == 1 {
      OddMedianIsElement(s);
    } else {
      EvenMedianIsPair(s);
    }
  }

  lemma OddMedianIsElement(s: seq<int>)
    requires |s| % 2 == 1
    ensures exists i | 0 <= i < |s| :: MedianOfSorted(Sort(s, true)) == s[i] as real
  {
    var t := Sort(s, true);
    var mid := |t| / 2;
    assert MedianOfSorted(t) == t[mid] as real;
    assert t[mid] in multiset(s);
    assert t[mid] in s;
  }

  lemma EvenMedianIsPair(s: seq<int>)
    requires s != [] && |s| % 2 == 0
    ensures exists i, j | 0 <= i < |s| && 0 <= j < |s| && i != j ::
      MedianOfSorted(Sort(s, true)) == (s[i] as real + s[j] as real) / 2.0
  {
    var t := Sort(s, true);
    var mid := |t| / 2;
    assert MedianOfSorted(t) == (t[mid] as real + t[mid - 1] as real) / 2.0;
    TwoPositionsInMultiset(t, mid, mid - 1);
    PairInSample(s, t[mid], t[mid - 1]);
  }

  lemma TwoPositionsInMultiset(t: seq<int>, a: nat, b: nat)
    requires b < a < |t|
    ensures multiset{t[a], t[b]} <= multiset(t)
  {
    assert t == t[..b] + [t[b]] + t[b + 1..a] + [t[a]] + t[a + 1..];
  }

  /** Two occurrences counted by the multiset sit at two different positions of the sample. */
  lemma PairInSample(s: seq<int>, x: int, y: int)
    requires multiset{x, y} <= multiset(s)
    ensures exists i, j | 0 <= i < |s| && 0 <= j < |s| && i != j :: s[i] == x && s[j] == y
  {
    assert x in multiset(s);
    assert x in s;
    var i :| 0 <= i < |s| && s[i] == x;
    var rest := s[..i] + s[i + 1..];
    assert multiset(s) == multiset(rest) + multiset{x} by {
      assert s == s[..i] + [s[i]] + s[i + 1..];
    }
    assert y in multiset(rest);
    assert y in rest;
    var k :| 0 <= k < |rest| && rest[k] == y;
    var j := if k < i then k else k + 1;
    assert s[j] == y;
  }

  /** The median depends only on which values occur how often, not on their order. */
  lemma MedianIgnoresOrder(s: seq<int>, s': seq<int>)
    requires s != [] && multiset(s) == multiset(s')
    ensures Sort(s, true) == Sort(s', true)
    ensures MedianOfSorted(Sort(s, true)) == MedianOfSorted(Sort(s', true))
  {
    SortIsUnique(s, Sort(s', true), true);
  }

  /**
   * The median: sorts the caller's array in place (through SortValues), then
   * takes the middle element, or the mean of the two middle elements.
   */
  method Median(kind: ElementKind, values: array?<int>) returns (r: Result<real, Error>)
    modifies values
    ensures DescribeExceptions(kind, values).Fail? ==> r == Failure(DescribeExceptions(kind, values).error)
    ensures DescribeExceptions(kind, values).Fail? && values != null ==> values[..] == old(values[..])
    ensures DescribeExceptions(kind, values).Pass? ==>
      && values[..] == Sort(old(values[..]), true)
      && r == Success(MedianOfSorted(values[..]))
      && Minimum(old(values[..])) as real <= r.value <= Maximum(old(values[..])) as real
  {
    var check := DescribeExceptions(kind, values);
    if check.Fail? {
      return Failure(check.error);
    }
    ghost var original := values[..];
    var sorted := SortValues(kind, values);
    r := Success(MedianOfSorted(sorted.value[..]));
    MedianBetweenMinAndMax(original);
  }

  /**
   * Median with rounding digits: single-array validation, the digit check with
   * its default limits (which, as written, rejects 15), then the (unrounded) median.
   */
  method MedianRounded(kind: ElementKind, values: array?<int>, roundDigits: int) returns (r: Result<real, Error>)
    modifies values
    ensures DescribeExceptions(kind, values).Fail? ==> r == Failure(DescribeExceptions(kind, values).error)
    ensures DescribeExceptions(kind, values).Pass? && !(0 <= roundDigits <= 15) ==>
      r == Failure(DigitsOutOfRange(0, 15))
    ensures DescribeExceptions(kind, values).Pass? && roundDigits == 15 ==>
      r == Failure(DigitsNotBelowUpper(0, 15))
    ensures (DescribeExceptions(kind, values).Fail? || !(0 <= roundDigits < 15)) && values != null ==>
      values[..] == old(values[..])
    ensures DescribeExceptions(kind, values).Pass? && 0 <= roundDigits < 15 ==>
      && values[..] == Sort(old(values[..]), true)
      && r == Success(MedianOfSorted(values[..]))
  {
    var check := DescribeExceptions(kind, values);
    if check.Fail? {
      return Failure(check.error);
    }
    var digits := IsNumberInRange(roundDigits);
    if digits.Fail? {
      return Failure(digits.error);
    }
    r := Median(kind, values);
  }

  // ---------------------------------------------------------------- Modus

  /**
   * m is the mode that Modus picks: no value occurs more often, and every value
   * met before m's first occurrence occurs strictly less often.
   */
  ghost predicate IsFirstMode(s: seq<int>, m: int) {
    exists i | 0 <= i < |s| :: && s[i] == m
                               && (forall j | 0 <= j < |s| :: Count(s, s[j]) <= Count(s, m))
                               && (forall j | 0 <= j < i :: Count(s, s[j]) < Count(s, m))
  }

  /** At most one value is the first mode of a sample. */
  lemma FirstModeUnique(s: seq<int>, m: int, m': int)
    requires IsFirstMode(s, m) && IsFirstMode(s, m')
    ensures m == m'
  {
    var i :| 0 <= i < |s| && s[i] == m && (forall j | 0 <= j < |s| :: Count(s, s[j]) <= Count(s, m))
             && (forall j | 0 <= j < i :: Count(s, s[j]) < Count(s, m));
    var i' :| 0 <= i' < |s| && s[i'] == m' && (forall j | 0 <= j < |s| :: Count(s, s[j]) <= Count(s, m'))
              && (forall j | 0 <= j < i' :: Count(s, s[j]) < Count(s, m'));
    assert Count(s, m) == Count(s, m') by {
      assert Count(s, s[i']) <= Count(s, m);
      assert Count(s, s[i]) <= Count(s, m');
    }
    assert i == i';
  }

  /**
   * The most frequent value: counts are gathered in a dictionary whose keys keep
   * their first-occurrence order, then the keys are scanned with a strict `>`,
   * so among values with the highest count the one met first wins.
   */
  method Modus(kind: ElementKind, values: array?<int>, includeCount: bool := false) returns (r: Result<ModeResult, Error>)
    ensures DescribeExceptions(kind, values).Fail? ==> r == Failure(DescribeExceptions(kind, values).error)
    ensures DescribeExceptions(kind, values).Pass? && !includeCount ==>
      r.Success? && r.value.Value? && IsFirstMode(values[..], r.value.value)
    ensures DescribeExceptions(kind, values).Pass? && includeCount ==>
      && r.Success? && r.value.Tally? && |r.value.counts| == 1
      && forall m | m in r.value.counts :: IsFirstMode(values[..], m) && r.value.counts[m] == Count(values[..], m)
  {
    var check := DescribeExceptions(kind, values);
    if check.Fail? {
      return Failure(check.error);
    }
    var keys, counts, firstAt := CountOccurrences(values);

    var max := counts[keys[0]];
    var key := keys[0];
    ghost var p := 0;
    for j := 0 to |keys|
      invariant 0 <= p < |keys| && p <= j && key == keys[p] && max == counts[key]
      invariant forall t | 0 <= t < j :: counts[keys[t]] <= max
      invariant forall t | 0 <= t < p :: counts[keys[t]] < max
    {
      if counts[keys[j]] > max {
        max := counts[keys[j]];
        key := keys[j];
        p := j;
      }
    }

    ModeFromTally(values[..], keys, counts, firstAt, p);
    if includeCount {
      assert map[key := max].Keys == {key};
      r := Success(Tally(map[key := max]));
    } else {
      r := Success(Value(key));
    }
  }

  /**
   * counts is the dictionary of occurrence counts of s and keys lists its keys
   * in insertion order: keys[t] first occurs in s at firstAt[t], and these
   * positions increase along keys.
   */
  ghost predicate IsTally(s: seq<int>, keys: seq<int>, counts: map<int, nat>, firstAt: seq<nat>) {
    && |firstAt| == |keys|
    && (forall k :: k in counts <==> k in keys)
    && (forall k :: k in counts <==> k in s)
    && (forall k | k in counts :: counts[k] == Count(s, k))
    && (forall t | 0 <= t < |keys| ::
          firstAt[t] < |s| && s[firstAt[t]] == keys[t] && forall j | 0 <= j < firstAt[t] :: s[j] != keys[t])
    && (forall t, u | 0 <= t < u < |keys| :: firstAt[t] < firstAt[u])
  }

  /** The first loop of Modus: one pass that counts each value, adding a key when a value is first met. */
  method CountOccurrences(values: array<int>) returns (keys: seq<int>, counts: map<int, nat>, ghost firstAt: seq<nat>)
    ensures IsTally(values[..], keys, counts, firstAt)
    ensures values.Length > 0 ==> keys != []
  {
    ghost var s := values[..];
    keys, counts, firstAt := [], map[], [];
    for i := 0 to values.Length
      invariant |firstAt| == |keys|
      invariant i > 0 ==> keys != []
      invariant forall k :: k in counts <==> k in keys
      invariant forall k :: k in counts <==> k in s[..i]
      invariant forall k | k in counts :: counts[k] == Count(s[..i], k)
      invariant forall t | 0 <= t < |keys| ::
        firstAt[t] < i && s[firstAt[t]] == keys[t] && forall j | 0 <= j < firstAt[t] :: s[j] != keys[t]
      invariant forall t, u | 0 <= t < u < |keys| :: firstAt[t] < firstAt[u]
    {
      var item := values[i];
      assert s[..i + 1] == s[..i] + [item];
      assert multiset(s[..i + 1]) == multiset(s[..i]) + multiset{item};
      if item in counts {
        counts := counts[item := counts[item] + 1];
        continue;
      }
      counts := counts[item := 1];
      keys := keys + [item];
      firstAt := firstAt + [i];
    }
    assert s[..values.Length] == s;
  }

  /** The winner of the scan over the tally is the first mode of the sample. */
  lemma ModeFromTally(s: seq<int>, keys: seq<int>, counts: map<int, nat>, firstAt: seq<nat>, p: nat)
    requires IsTally(s, keys, counts, firstAt) && p < |keys|
    requires forall t | 0 <= t < |keys| :: counts[keys[t]] <= counts[keys[p]]
    requires forall t | 0 <= t < p :: counts[keys[t]] < counts[keys[p]]
    ensures IsFirstMode(s, keys[p])
  {
    var m := keys[p];
    var i := firstAt[p];
    forall j | 0 <= j < |s| ensures Count(s, s[j]) <= Count(s, m) {
      assert s[j] in s;
      var t :| 0 <= t < |keys| && keys[t] == s[j];
    }
    forall j | 0 <= j < i ensures Count(s, s[j]) < Count(s, m) {
      assert s[j] in s;
      var t :| 0 <= t < |keys| && keys[t] == s[j];
      assert firstAt[t] <= j;
      assert t < p;
    }
  }

  // ---------------------------------------------------------------- Weighted mean

  /** Sum of value times weight over the sum of the weights, non-finite when the weights sum to zero. */
  function WeightedAverage(s: seq<int>, w: seq<int>): Quotient
    requires |s| == |w|
  {
    if Sum(w) == 0 then NonFinite else Finite(WeightedSum(s, w) as real / (Sum(w) as real))
  }

  /** With one nonzero weight for every value the weighted mean is the arithmetic mean. */
  lemma EqualWeightsGiveMean(s: seq<int>, w: seq<int>, c: int)
    requires s != [] && |s| == |w| && c != 0
    requires forall i | 0 <= i < |w| :: w[i] == c
    ensures WeightedAverage(s, w) == Finite(Average(s))
  {
    WeightedSumOfEqualWeights(s, w, c);
    CancelFactor(c, Sum(s), |s|);
  }

  lemma CancelFactor(c: int, x: int, n: int)
    requires c != 0 && n > 0
    ensures n * c != 0
    ensures ((c * x) as real) / ((n * c) as real) == (x as real) / (n as real)
  {
    assert ((c * x) as real) == (c as real) * (x as real);
    assert ((n * c) as real) == (n as real) * (c as real);
  }

  /** With positive weights the weighted mean lies between the smallest and the largest value. */
  lemma PositiveWeightsBounded(s: seq<int>, w: seq<int>)
    requires s != [] && |s| == |w|
    requires forall i | 0 <= i < |w| :: w[i] > 0
    ensures WeightedAverage(s, w).Finite?
    ensures Minimum(s) as real <= WeightedAverage(s, w).value <= Maximum(s) as real
  {
    WeightedQuotientAtLeast(s, w);
    WeightedQuotientAtMost(s, w);
  }

  /** The weighted mean, accumulating value times weight in a loop. */
  method WeightedMean(kind: ElementKind, values: array?<int>, weightKind: ElementKind, weights: array?<int>)
    returns (r: Result<Quotient, Error>)
    ensures DescribeExceptionsPaired(kind, values, weightKind, weights).Fail? ==>
      r == Failure(DescribeExceptionsPaired(kind, values, weightKind, weights).error)
    ensures DescribeExceptionsPaired(kind, values, weightKind, weights).Pass? ==>
      r == Success(WeightedAverage(values[..], weights[..]))
  {
    var check := DescribeExceptionsPaired(kind, values, weightKind, weights);
    if check.Fail? {
      return Failure(check.error);
    }
    var sum := 0.0;
    var n := Sum(weights[..]) as real;
    for i := 0 to values.Length
      invariant sum == WeightedSum(values[..i], weights[..i]) as real
    {
      assert values[..i + 1][..i] == values[..i] && weights[..i + 1][..i] == weights[..i];
      sum := sum + (values[i] as real) * (weights[i] as real);
    }
    assert values[..values.Length] == values[..] && weights[..weights.Length] == weights[..];
    if n == 0.0 {
      r := Success(NonFinite);
    } else {
      r := Success(Finite(sum / n));
    }
  }

  /**
   * Weighted mean with rounding digits: paired validation, the digit check with
   * its default limits (which, as written, rejects 15), then the (unrounded) weighted mean.
   */
  method WeightedMeanRounded(kind: ElementKind, values: array?<int>, weightKind: ElementKind, weights: array?<int>,
                             roundDigits: int)
    returns (r: Result<Quotient, Error>)
    ensures DescribeExceptionsPaired(kind, values, weightKind, weights).Fail? ==>
      r == Failure(DescribeExceptionsPaired(kind, values, weightKind, weights).error)
    ensures DescribeExceptionsPaired(kind, values, weightKind, weights).Pass? && !(0 <= roundDigits <= 15) ==>
      r == Failure(DigitsOutOfRange(0, 15))
    ensures DescribeExceptionsPaired(kind, values, weightKind, weights).Pass? && roundDigits == 15 ==>
      r == Failure(DigitsNotBelowUpper(0, 15))
    ensures DescribeExceptionsPaired(kind, values, weightKind, weights).Pass? && 0 <= roundDigits < 15 ==>
      r == Success(WeightedAverage(values[..], weights[..]))
  {
    var check := DescribeExceptionsPaired(kind, values, weightKind, weights);
    if check.Fail? {
      return Failure(check.error);
    }
    var digits := IsNumberInRange(roundDigits);
    if digits.Fail? {
      return Failure(digits.error);
    }
    r := WeightedMean(kind, values, weightKind, weights);
  }
}
