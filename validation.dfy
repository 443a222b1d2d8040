/**
 * The private checks of the Statistics class: the element-type allow-list, the
 * three DescribeExceptions overloads that raise on the first failing check, and
 * the rounding-digit range check.
 */
module Validation {
  import opened Wrappers

  /** The element type T of a T[] argument. */
  datatype ElementKind =
    | SByte | Byte | Int16 | UInt16 | Int32 | UInt32 | Int64 | UInt64
    | Single | Double | Decimal
    | NonNumeric  // any other T: char, bool, string, a user type, ...

  /** The exception classes the operations raise. */
  datatype ExceptionClass = ArgumentException | ArgumentNullException | RuntimeBinderException | OverflowException

  /** What a failing check reports; each reason carries its own message in the source. */
  datatype Error =
    | NotNumeric                                 // the array (or one of two arrays) is not numerical
    | NullInput                                  // an array is null
    | EmptyInput                                 // the array is empty
    | NullArgument                               // an extra argument is null
    | LengthMismatch                             // two arrays differ in length
    | DigitsOutOfRange(lower: int, upper: int)   // less than lower or greater than upper
    | DigitsNotBelowUpper(lower: int, upper: int) // less than lower or not below upper
    | ResultNotConvertible                       // a dynamic result has no implicit conversion back to T
    | ArithmeticOverflow                         // a checked (decimal) subtraction overflowed

  /**
   * The class of the exception raised for each reason: the null checks raise
   * ArgumentNullException, every other check ArgumentException.
   */
  function ExceptionOf(e: Error): (c: ExceptionClass)
    ensures c == ArgumentNullException <==> e == NullInput || e == NullArgument
    ensures c == RuntimeBinderException <==> e == ResultNotConvertible
    ensures c == OverflowException <==> e == ArithmeticOverflow
    ensures e.NotNumeric? || e.EmptyInput? || e.LengthMismatch? || e.DigitsOutOfRange? || e.DigitsNotBelowUpper?
            <==> c == ArgumentException
  {
    match e
    case NullInput | NullArgument => ArgumentNullException
    case ResultNotConvertible => RuntimeBinderException
    case ArithmeticOverflow => OverflowException
    case _ => ArgumentException
  }

  /** The allow-list of element types; System.UInt64[] is listed twice in the source. */
  predicate IsNumericArray(kind: ElementKind)
    ensures IsNumericArray(kind) <==> kind != NonNumeric
  {
    kind == SByte || kind == Byte || kind == UInt16 || kind == Int16
    || kind == UInt32 || kind == Int64 || kind == UInt64 || kind == UInt64
    || kind == Single || kind == Double || kind == Decimal || kind == Int32
  }

  /**
   * Single-array validation: not numeric, then null, then empty. (The rank test
   * that follows can never fail for a T[], so it is not modelled.)
   */
  function DescribeExceptions(kind: ElementKind, values: array?<int>): (r: Outcome<Error>)
    ensures r.Pass? <==> kind != NonNumeric && values != null && values.Length > 0
    ensures r == Fail(NotNumeric) <==> kind == NonNumeric
    ensures r == Fail(NullInput) <==> kind != NonNumeric && values == null
    ensures r == Fail(EmptyInput) <==> kind != NonNumeric && values != null && values.Length == 0
  {
    if !IsNumericArray(kind) then Fail(NotNumeric)
    else if values == null then Fail(NullInput)
    else if values.Length == 0 then Fail(EmptyInput)
    else Pass
  }

  /** Single-array validation followed by a null test of each extra argument. */
  function DescribeExceptionsWithArgs(kind: ElementKind, values: array?<int>, args: seq<Option<int>>): (r: Outcome<Error>)
    ensures r.Pass? <==> DescribeExceptions(kind, values).Pass? && forall i | 0 <= i < |args| :: args[i].Some?
    ensures DescribeExceptions(kind, values).Fail? ==> r == DescribeExceptions(kind, values)
    ensures r == Fail(NullArgument) <==> DescribeExceptions(kind, values).Pass? && exists i | 0 <= i < |args| :: args[i].None?
  {
    var first := DescribeExceptions(kind, values);
    if first.Fail? then first
    else if None in args then Fail(NullArgument)
    else Pass
  }

  /**
   * Two-array validation: not numeric (either array), then lengths, then null,
   * then empty. Taking the length of a null array raises ArgumentNullException
   * already at the length test, so the explicit null test is never reached; an
   * empty array is reported as a null one.
   */
  function DescribeExceptionsPaired(kind: ElementKind, values: array?<int>, kind2: ElementKind, values2: array?<int>): (r: Outcome<Error>)
    ensures r.Pass? <==>
      (kind != NonNumeric && kind2 != NonNumeric && values != null && values2 != null
       && values.Length == values2.Length > 0)
    ensures r == Fail(NotNumeric) <==> kind == NonNumeric || kind2 == NonNumeric
    ensures r == Fail(LengthMismatch) <==>
      (kind != NonNumeric && kind2 != NonNumeric && values != null && values2 != null
       && values.Length != values2.Length)
    ensures r == Fail(NullInput) <==>
      (kind != NonNumeric && kind2 != NonNumeric
       && (values == null || values2 == null || values.Length == values2.Length == 0))
  {
    if !IsNumericArray(kind) || !IsNumericArray(kind2) then Fail(NotNumeric)
    else if values == null || values2 == null then Fail(NullInput)  // raised by Count() on a null array
    else if values.Length != values2.Length then Fail(LengthMismatch)
    else if values.Length == 0 || values2.Length == 0 then Fail(NullInput)
    else Pass
  }

  /** The two orders differ: an empty numeric array alone is EmptyInput, paired with another empty one it is NullInput. */
  lemma PairedReportsEmptyAsNull(kind: ElementKind, values: array<int>, kind2: ElementKind, values2: array<int>)
    requires kind != NonNumeric && kind2 != NonNumeric
    requires values.Length == 0 && values2.Length == 0
    ensures DescribeExceptions(kind, values) == Fail(EmptyInput)
    ensures DescribeExceptionsPaired(kind, values, kind2, values2) == Fail(NullInput)
    ensures ExceptionOf(EmptyInput) == ArgumentException && ExceptionOf(NullInput) == ArgumentNullException
  {
  }

  /** Paired validation passes exactly when each array passes on its own and the lengths agree. */
  lemma PairedPassesIffBothPass(kind: ElementKind, values: array?<int>, kind2: ElementKind, values2: array?<int>)
    ensures DescribeExceptionsPaired(kind, values, kind2, values2).Pass? <==>
      DescribeExceptions(kind, values).Pass? && DescribeExceptions(kind2, values2).Pass?
      && values.Length == values2.Length
  {
  }

  /**
   * The rounding-digit check as written: the `else` belongs to the inner `if`,
   * so with inclusive set a number in [lLimit, uLimit] is then tested against the
   * half-open range, and with inclusive clear nothing is tested.
   */
  function IsNumberInRange(number: int, lLimit: int := 0, uLimit: int := 15, inclusive: bool := true): (r: Outcome<Error>)
    ensures r.Pass? <==> !inclusive || lLimit <= number < uLimit
    ensures r == Fail(DigitsOutOfRange(lLimit, uLimit)) <==> inclusive && (number < lLimit || number > uLimit)
    ensures r == Fail(DigitsNotBelowUpper(lLimit, uLimit)) <==> inclusive && lLimit <= number == uLimit
  {
    if inclusive then
      if number < lLimit || number > uLimit then Fail(DigitsOutOfRange(lLimit, uLimit))
      else if number < lLimit || number >= uLimit then Fail(DigitsNotBelowUpper(lLimit, uLimit))
      else Pass
    else Pass
  }

  /** With the default limits the check accepts 0..14 and rejects 15 although the message admits it. */
  lemma DefaultRangeRejectsFifteen(number: int)
    ensures IsNumberInRange(number).Pass? <==> 0 <= number <= 14
    ensures IsNumberInRange(15) == Fail(DigitsNotBelowUpper(0, 15))
    ensures IsNumberInRange(99, inclusive := false) == Pass
  {
  }

  /**
   * The check as its two messages describe it: with inclusive the range is
   * [lLimit, uLimit], otherwise [lLimit, uLimit).
   */
  function DigitsInRange(number: int, lLimit: int := 0, uLimit: int := 15, inclusive: bool := true): (r: Outcome<Error>)
    ensures r.Pass? <==> lLimit <= number && (if inclusive then number <= uLimit else number < uLimit)
    ensures r.Fail? ==> r.error == (if inclusive then DigitsOutOfRange(lLimit, uLimit) else DigitsNotBelowUpper(lLimit, uLimit))
  {
    if inclusive then
      if number < lLimit || number > uLimit then Fail(DigitsOutOfRange(lLimit, uLimit)) else Pass
    else
      if number < lLimit || number >= uLimit then Fail(DigitsNotBelowUpper(lLimit, uLimit)) else Pass
  }

  /** With the default limits the corrected check accepts exactly 0..15. */
  lemma DefaultRangeIsZeroToFifteen(number: int)
    ensures DigitsInRange(number).Pass? <==> 0 <= number <= 15
    ensures DigitsInRange(-1) == Fail(DigitsOutOfRange(0, 15)) && DigitsInRange(16) == Fail(DigitsOutOfRange(0, 15))
  {
  }
}
