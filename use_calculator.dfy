/**
 * The calculator state machine: the display-value formatter, the binary operations with
 * their division-by-zero sentinel, the history list, the eight input handlers as
 * transitions of the state record, and the keyboard table that dispatches into them.
 */
module UseCalculator {
  import opened TextUtil
  import opened JsNumber
  import opened CalculatorTypes
  import Display

  datatype Option<T> = None | Some(value: T)

  /** The most digits (ignoring '-' and '.') a typed value may hold. */
  const MaxDigits: nat := 12

  /** The most entries the history keeps. */
  const HistoryLimit: nat := 10

  /** The sentinel a division by zero produces. */
  const ErrorText: string := "Error"

  const Initial: CalculatorState := CalculatorState("0", "", NoOperation, "0", false, [])

  function Min(a: int, b: int): int {
    if a < b then a else b
  }

  function Max(a: int, b: int): int {
    if a < b then b else a
  }

  // ---------------------------------------------------------------------------
  // formatDisplayValue

  /** `Math.abs(num) >= 1e12`; false for NaN. */
  predicate IsLarge(n: Num) {
    n.Finite? && Abs(n.value) >= 1e12
  }

  /** The length of the value once every '-' and '.' is deleted. */
  function DigitCount(value: string): nat {
    |Without(value, {'-', '.'})|
  }

  /**
   * The value as the display keeps it: empty text reads as "0"; a value of magnitude
   * 10^12 or more, or an over-long value without a '.', switches to exponential form;
   * an over-long value with a '.' loses fraction digits; anything else is kept.
   */
  function FormatDisplayValue(value: string): string {
    if value == [] then "0"
    else
      var num := ParseFloat(value);
      if IsLarge(num) then ToExponential6(num)
      else if DigitCount(value) > MaxDigits then
        if '.' in value then TruncateDecimal(value) else ToExponential6(num)
      else value
  }

  /**
   * The part before the first '.', a '.', and as many characters of the following piece
   * as fit in MaxDigits - |integer part| - 1. The result is a prefix of the value.
   */
  function TruncateDecimal(value: string): (r: string)
    requires '.' in value
    ensures |r| == |IntegerPart(value)| + 1 + Min(Max(0, MaxDigits - |IntegerPart(value)| - 1), |FractionPart(value)|)
    ensures r == value[..|r|]
  {
    var parts := Split(value, '.');
    var maxDecDigits := Max(0, MaxDigits - |parts[0]| - 1);
    var k := Min(maxDecDigits, |parts[1]|);
    DecimalPrefix(value, k);
    parts[0] + "." + parts[1][..k]
  }

  /** The value's first |integer part| + 1 + k characters are the integer part, '.', and k fraction characters. */
  lemma DecimalPrefix(value: string, k: nat)
    requires '.' in value && k <= |FractionPart(value)|
    ensures value[..|IntegerPart(value)| + 1 + k] == IntegerPart(value) + "." + FractionPart(value)[..k]
  {
    var i := IndexOf(value, '.');
    PiecesAroundPoint(value);
    SliceAroundPoint(value, i, FractionPart(value), k);
  }

  /** The integer part ends at the first '.', and the fraction part starts right after it. */
  lemma PiecesAroundPoint(value: string)
    requires '.' in value
    ensures IntegerPart(value) == value[..IndexOf(value, '.')]
    ensures FractionPart(value) == value[IndexOf(value, '.') + 1..][..IndexOf(value[IndexOf(value, '.') + 1..], '.')]
  {
    var i := IndexOf(value, '.');
    var rest := value[i + 1..];
    var tail := Split(rest, '.');
    assert Split(value, '.') == [value[..i]] + tail;
    assert tail[0] == rest[..IndexOf(rest, '.')];
  }

  lemma SliceAroundPoint(value: string, i: nat, f: string, k: nat)
    requires i < |value| && value[i] == '.' && k <= |f| <= |value| - i - 1 && f == value[i + 1..][..|f|]
    ensures value[..i + 1 + k] == value[..i] + "." + f[..k]
  {
  }

  /** The piece after the first '.', up to the next '.' or the end. */
  function FractionPart(value: string): string
    requires '.' in value
  {
    Split(value, '.')[1]
  }

  lemma FormatDisplayValueEmpty()
    ensures FormatDisplayValue("") == "0"
  {
  }

  /** A value of at most MaxDigits digits and magnitude below 10^12 is kept as typed. */
  lemma FormatDisplayValueKeeps(value: string)
    requires value != [] && !IsLarge(ParseFloat(value)) && DigitCount(value) <= MaxDigits
    ensures FormatDisplayValue(value) == value
  {
  }

  /**
   * A value of magnitude 10^12 or more is shown in exponential form: well formed, with
   * the value's sign, and reading back within half a unit of its seventh significant digit.
   */
  lemma FormatDisplayValueLarge(value: string)
    requires IsLarge(ParseFloat(value))
    ensures FormatDisplayValue(value) == ToExponential6(ParseFloat(value))
    ensures WellFormedExponential(FormatDisplayValue(value), ParseFloat(value).value < 0.0)
    ensures ParseFloat(FormatDisplayValue(value)).Finite?
    ensures Abs(ParseFloat(FormatDisplayValue(value)).value - ParseFloat(value).value)
      <= Abs(ParseFloat(value).value) / 2000000.0
  {
    LargeIsExponential(value);
    var n := ParseFloat(value);
    ExponentialOfLarge(n.value);
    assert n == Finite(n.value);
  }

  lemma LargeIsExponential(value: string)
    requires IsLarge(ParseFloat(value))
    ensures FormatDisplayValue(value) == ToExponential6(ParseFloat(value))
  {
    ParseEmpty();
  }

  /** The exponential text of a large value is well formed and reads back close to it. */
  lemma ExponentialOfLarge(x: real)
    requires Abs(x) >= 1e12
    ensures WellFormedExponential(ToExponential6(Finite(x)), x < 0.0)
    ensures ParseFloat(ToExponential6(Finite(x))).Finite?
    ensures Abs(ParseFloat(ToExponential6(Finite(x))).value - x) <= Abs(x) / 2000000.0
  {
    ToExponential6Shape(x);
    ToExponential6Close(x);
  }

  /**
   * An over-long value below 10^12 with a '.' is cut to a prefix: its whole integer part,
   * the '.', and at most MaxDigits - |integer part| - 1 fraction characters.
   */
  lemma FormatDisplayValueTruncates(value: string)
    requires value != [] && !IsLarge(ParseFloat(value)) && DigitCount(value) > MaxDigits && '.' in value
    ensures FormatDisplayValue(value) == TruncateDecimal(value)
    ensures FormatDisplayValue(value) == value[..|FormatDisplayValue(value)|]
    ensures |FormatDisplayValue(value)| <= |IntegerPart(value)| + 1 + Max(0, MaxDigits - |IntegerPart(value)| - 1)
    ensures FormatDisplayValue(value)[..|IntegerPart(value)| + 1] == IntegerPart(value) + "."
  {
    TruncateKeepsIntegerPart(value);
  }

  /** The cut keeps the integer part and its '.'. */
  lemma TruncateKeepsIntegerPart(value: string)
    requires '.' in value
    ensures TruncateDecimal(value)[..|IntegerPart(value)| + 1] == IntegerPart(value) + "."
  {
    var r := TruncateDecimal(value);
    var i := IndexOf(value, '.');
    assert r[..i + 1] == value[..i + 1];
    assert value[..i + 1] == IntegerPart(value) + ".";
  }

  /** The text before the first '.'. */
  function IntegerPart(value: string): string {
    Split(value, '.')[0]
  }

  /** The digit count of a run of digits is its length. */
  lemma DigitCountDigits(d: string)
    requires AllDigits(d)
    ensures DigitCount(d) == |d|
  {
    WithoutAbsent(d, {'-', '.'});
  }

  /** The digit count of digits '.' digits is the number of digits on both sides. */
  lemma DigitCountDecimal(intPart: string, frac: string)
    requires AllDigits(intPart) && AllDigits(frac)
    ensures DigitCount(intPart + "." + frac) == |intPart| + |frac|
  {
    WithoutConcat(intPart + ".", frac, {'-', '.'});
    WithoutConcat(intPart, ".", {'-', '.'});
    WithoutAbsent(intPart, {'-', '.'});
    WithoutAbsent(frac, {'-', '.'});
  }

  /**
   * A run of more than MaxDigits digits switches to exponential form, whatever its
   * magnitude (leading zeros included), with a sign-free mantissa.
   */
  lemma LongIntegerToExponential(value: string)
    requires AllDigits(value) && |value| > MaxDigits
    ensures FormatDisplayValue(value) == ToExponential6(Finite(DigitsValue(value) as real))
    ensures WellFormedExponential(FormatDisplayValue(value), false)
  {
    DigitCountDigits(value);
    DigitsHaveNoPoint(value);
    LongWithoutPoint(value);
    ParseDigits(value);
    ToExponential6Shape(DigitsValue(value) as real);
  }

  /** Too many digits and no '.': exponential form, whatever the magnitude. */
  lemma LongWithoutPoint(value: string)
    requires value != [] && '.' !in value && DigitCount(value) > MaxDigits
    ensures FormatDisplayValue(value) == ToExponential6(ParseFloat(value))
  {
  }

  lemma DigitsHaveNoPoint(s: string)
    requires AllDigits(s)
    ensures '.' !in s
  {
  }

  /** Digits '.' digits with an integer part of at most 12 digits parses below 10^12. */
  lemma DecimalBelowLimit(intPart: string, frac: string)
    requires AllDigits(intPart) && AllDigits(frac) && 1 <= |intPart| <= 12
    ensures !IsLarge(ParseFloat(intPart + "." + frac))
  {
    var a := DigitsValue(intPart) as real + DigitsValue(frac) as real / Ten(|frac|) as real;
    DecimalBound(intPart, frac, a);
    ParseDecimal(intPart, frac, intPart + "." + frac, a);
  }

  lemma DecimalBound(intPart: string, frac: string, a: real)
    requires AllDigits(intPart) && AllDigits(frac) && |intPart| <= 12
    requires a == DigitsValue(intPart) as real + DigitsValue(frac) as real / Ten(|frac|) as real
    ensures 0.0 <= a < 1e12
  {
    var i := DigitsValue(intPart);
    var f := DigitsValue(frac) as real / Ten(|frac|) as real;
    FractionBelowOne(DigitsValue(frac), Ten(|frac|));
    TenMonotone(|intPart|, 12);
    TwelveDigits();
    assert i <= 999999999999;
    assert a == i as real + f;
  }

  lemma TwelveDigits()
    ensures Ten(12) == 1000000000000
  {
  }

  lemma FractionBelowOne(v: nat, t: nat)
    requires v < t
    ensures 0.0 <= v as real / t as real < 1.0
  {
  }

  lemma {:induction false} TenMonotone(a: nat, b: nat)
    requires a <= b
    ensures Ten(a) <= Ten(b)
    decreases b - a
  {
    if a < b {
      TenMonotone(a, b - 1);
    }
  }

  /** On digits '.' digits, the integer part and the fraction part are the two runs of digits. */
  lemma TruncateDecimalParts(intPart: string, frac: string, value: string)
    requires '.' !in intPart && '.' !in frac && value == intPart + "." + frac
    ensures '.' in value && IntegerPart(value) == intPart && FractionPart(value) == frac
    ensures TruncateDecimal(value) == intPart + "." + frac[..Min(Max(0, MaxDigits - |intPart| - 1), |frac|)]
  {
    DecimalPieces(intPart, frac, value);
    var k := Min(Max(0, MaxDigits - |intPart| - 1), |frac|);
    PrefixOfDecimal(intPart, frac, value, k);
  }

  lemma DecimalPieces(intPart: string, frac: string, value: string)
    requires '.' !in intPart && '.' !in frac && value == intPart + "." + frac
    ensures '.' in value && IntegerPart(value) == intPart && FractionPart(value) == frac
  {
    assert value[|intPart|] == '.';
    SplitAfter(intPart, frac, '.');
    assert Split(frac, '.') == [frac];
  }

  lemma PrefixOfDecimal(intPart: string, frac: string, value: string, k: nat)
    requires value == intPart + "." + frac && k <= |frac|
    ensures value[..|intPart| + 1 + k] == intPart + "." + frac[..k]
  {
  }

  /**
   * Past MaxDigits, a decimal keeps only MaxDigits - 1 digits: the integer part and
   * 11 - |integer part| fraction digits. Typing a 13th digit after "1.23456789012"
   * gives "1.2345678901".
   */
  lemma TruncationKeepsElevenDigits(intPart: string, frac: string)
    requires AllDigits(intPart) && AllDigits(frac) && 1 <= |intPart| <= 11
    requires |intPart| + |frac| > MaxDigits
    ensures FormatDisplayValue(intPart + "." + frac) == intPart + "." + frac[..MaxDigits - 1 - |intPart|]
    ensures DigitCount(FormatDisplayValue(intPart + "." + frac)) == MaxDigits - 1
  {
    var value := intPart + "." + frac;
    DecimalBelowLimit(intPart, frac);
    DigitCountDecimal(intPart, frac);
    DigitsHaveNoPoint(intPart);
    DigitsHaveNoPoint(frac);
    TruncateDecimalParts(intPart, frac, value);
    FormatDisplayValueTruncates(value);
    var k := MaxDigits - 1 - |intPart|;
    assert AllDigits(frac[..k]);
    DigitCountDecimal(intPart, frac[..k]);
  }

  // ---------------------------------------------------------------------------
  // performCalculation

  /** An operand as the calculation reads it: empty text stands for "0", which reads as 0. */
  function Operand(text: string): Num {
    if text == [] then Finite(0.0) else ParseFloat(text)
  }

  /** Reading an operand is `parseFloat` of the text, or of "0" when the text is empty. */
  lemma OperandReadsOrZero(text: string)
    ensures Operand(text) == ParseFloat(if text == [] then "0" else text)
  {
    if text == [] {
      var z := "0";
      ParseZero(z);
    }
  }

  /**
   * The result text of `a op b`: the four arithmetic operations and the percentage
   * a * (b / 100), printed with `String`; "Error" for a division by a right operand
   * that reads as 0; with no operation, b unchanged.
   */
  function PerformCalculation(a: string, b: string, op: Operation, showReal: real -> string): string {
    Evaluate(Operand(a), Operand(b), op, b, showReal)
  }

  /**
   * The switch on the operation, once both operands are read: no operation gives b back,
   * a division by 0 gives "Error", and every other case prints the arithmetic result.
   */
  function Evaluate(numA: Num, numB: Num, op: Operation, b: string, showReal: real -> string): string {
    if op == NoOperation then b
    else if op == Divide && numB == Finite(0.0) then ErrorText
    else NumberToString(Arithmetic(numA, numB, op), showReal)
  }

  /** The number an operation computes; percent is a * (b / 100). */
  function Arithmetic(numA: Num, numB: Num, op: Operation): Num
    requires op != NoOperation
    requires op == Divide ==> numB != Finite(0.0)
  {
    match op
    case Plus => Add(numA, numB)
    case Minus => Sub(numA, numB)
    case Times => Mul(numA, numB)
    case Divide => Quot(numA, numB)
    case Percent => Mul(numA, Quot(numB, Finite(100.0)))
  }

  /** Division yields "Error" exactly when the right operand reads as 0, unless `String` itself printed "Error". */
  lemma DivideByZero(a: string, b: string, showReal: real -> string)
    requires forall x :: showReal(x) != ErrorText
    ensures PerformCalculation(a, b, Divide, showReal) == ErrorText <==> Operand(b) == Finite(0.0)
  {
    DivideByZeroNumbers(Operand(a), Operand(b), b, showReal);
  }

  lemma DivideByZeroNumbers(x: Num, y: Num, b: string, showReal: real -> string)
    requires forall x :: showReal(x) != ErrorText
    ensures Evaluate(x, y, Divide, b, showReal) == ErrorText <==> y == Finite(0.0)
  {
    if y != Finite(0.0) {
      var n := Quot(x, y);
      if n.Finite? && IsIntegral(n.value) && Abs(n.value) < IntegerPrintLimit {
        IntegerTextIsNotError(n.value.Floor);
      }
    }
  }

  /** The text of an integer starts with a digit or '-', so it is never "Error". */
  lemma IntegerTextIsNotError(i: int)
    ensures IntegerToString(i) != ErrorText
  {
    var s := IntegerToString(i);
    if i < 0 {
      assert s[0] == '-';
    } else {
      assert IsDigit(s[0]);
    }
  }

  /** Percent is a * (b / 100), not a remainder. */
  lemma PercentOfValue(a: string, b: string, showReal: real -> string)
    requires Operand(a).Finite? && Operand(b).Finite?
    ensures PerformCalculation(a, b, Percent, showReal)
      == NumberToString(Finite(Operand(a).value * (Operand(b).value / 100.0)), showReal)
  {
    PercentOfNumbers(Operand(a), Operand(b), b, showReal);
  }

  lemma PercentOfNumbers(x: Num, y: Num, b: string, showReal: real -> string)
    requires x.Finite? && y.Finite?
    ensures Evaluate(x, y, Percent, b, showReal) == NumberToString(Finite(x.value * (y.value / 100.0)), showReal)
  {
    var n := Mul(x, Quot(y, Finite(100.0)));
    PercentMul(x, y);
    assert Evaluate(x, y, Percent, b, showReal) == NumberToString(n, showReal);
  }

  lemma PercentMul(x: Num, y: Num)
    requires x.Finite? && y.Finite?
    ensures Mul(x, Quot(y, Finite(100.0))) == Finite(x.value * (y.value / 100.0))
  {
  }

  /** An empty operand on either side behaves as the text "0" (with an operation to apply). */
  lemma EmptyOperandIsZero(a: string, b: string, zero: string, op: Operation, showReal: real -> string)
    requires |zero| == 1 && zero[0] == '0'
    requires op != NoOperation
    ensures PerformCalculation([], b, op, showReal) == PerformCalculation(zero, b, op, showReal)
    ensures PerformCalculation(a, [], op, showReal) == PerformCalculation(a, zero, op, showReal)
  {
    ParseZero(zero);
    assert Operand(zero) == Operand([]);
  }

  /** With no operation the right operand comes back unchanged, even when empty. */
  lemma NoOperationKeepsRight(a: string, b: string, showReal: real -> string)
    ensures PerformCalculation(a, b, NoOperation, showReal) == b
  {
  }

  /** The exact integer result of an operation, where it has one. */
  function IntegerResult(i: int, j: int, op: Operation): Option<int> {
    match op
    case Plus => Some(i + j)
    case Minus => Some(i - j)
    case Times => Some(i * j)
    case Divide => if j != 0 && i % j == 0 then Some(i / j) else None
    case Percent => if (i * j) % 100 == 0 then Some(i * j / 100) else None
    case NoOperation => Some(j)
  }

  /**
   * On integer operands whose exact result is an integer below 10^21 in magnitude, the
   * result text is that integer's decimal text, with the operations carried out on exact
   * reals (the doubles of the program can round, e.g. in percent's b / 100).
   */
  lemma IntegerArithmeticExact(i: int, j: int, op: Operation, showReal: real -> string)
    requires IntegerResult(i, j, op).Some?
    requires Abs(IntegerResult(i, j, op).value as real) < IntegerPrintLimit
    ensures PerformCalculation(IntegerToString(i), IntegerToString(j), op, showReal)
      == IntegerToString(IntegerResult(i, j, op).value)
  {
    OperandOfInteger(i);
    OperandOfInteger(j);
    EvaluateIntegers(i, j, op, IntegerToString(j), showReal);
  }

  /** The text of an integer reads back as that integer. */
  lemma OperandOfInteger(i: int)
    ensures Operand(IntegerToString(i)) == Finite(i as real)
  {
    NonEmptyIntegerText(i);
    ParseIntegerToString(i);
  }

  lemma EvaluateIntegers(i: int, j: int, op: Operation, b: string, showReal: real -> string)
    requires IntegerResult(i, j, op).Some?
    requires Abs(IntegerResult(i, j, op).value as real) < IntegerPrintLimit
    requires op == NoOperation ==> b == IntegerToString(j)
    ensures Evaluate(Finite(i as real), Finite(j as real), op, b, showReal) == IntegerToString(IntegerResult(i, j, op).value)
  {
    if op != NoOperation {
      var k := IntegerResult(i, j, op).value;
      ArithmeticOnIntegers(i, j, op);
      PrintsInteger(Arithmetic(Finite(i as real), Finite(j as real), op), k, showReal);
    }
  }

  lemma ArithmeticOnIntegers(i: int, j: int, op: Operation)
    requires op != NoOperation && IntegerResult(i, j, op).Some?
    ensures op == Divide ==> j != 0
    ensures Arithmetic(Finite(i as real), Finite(j as real), op) == Finite(IntegerResult(i, j, op).value as real)
  {
    var x := Finite(i as real);
    var y := Finite(j as real);
    match op {
      case Plus =>
      case Minus =>
      case Times =>
      case Divide => ExactQuotient(i, j);
      case Percent =>
        ExactPercent(i, j);
        PercentMul(x, y);
    }
  }

  lemma PrintsInteger(n: Num, k: int, showReal: real -> string)
    requires n == Finite(k as real) && Abs(k as real) < IntegerPrintLimit
    ensures NumberToString(n, showReal) == IntegerToString(k)
  {
    NumberToStringInteger(k, showReal);
  }

  lemma NonEmptyIntegerText(i: int)
    ensures IntegerToString(i) != []
  {
  }

  lemma ExactQuotient(i: int, j: int)
    requires j != 0 && i % j == 0
    ensures (i as real) / (j as real) == (i / j) as real
  {
    var q := i / j;
    assert i == q * j;
    assert (i as real) == (q as real) * (j as real);
  }

  lemma ExactPercent(i: int, j: int)
    requires (i * j) % 100 == 0
    ensures (i as real) * ((j as real) / 100.0) == (i * j / 100) as real
  {
    var q := i * j / 100;
    assert i * j == q * 100;
    assert (i as real) * (j as real) == (q as real) * 100.0;
  }

  // ---------------------------------------------------------------------------
  // History

  /** The new entry first, then the first nine old ones in order. */
  function AddToHistory(history: seq<HistoryItem>, item: HistoryItem): (r: seq<HistoryItem>)
    ensures |r| == Min(|history| + 1, HistoryLimit)
    ensures r[0] == item
    ensures forall k :: 1 <= k < |r| ==> r[k] == history[k - 1]
  {
    [item] + history[..Min(HistoryLimit - 1, |history|)]
  }

  /** The first n elements of s, or all of them. */
  function Take<T>(s: seq<T>, n: nat): seq<T> {
    s[..Min(n, |s|)]
  }

  function Reversed<T>(s: seq<T>): (r: seq<T>)
    ensures |r| == |s|
  {
    if s == [] then [] else Reversed(s[1..]) + [s[0]]
  }

  /** The history after recording each item in turn. */
  function AddAllToHistory(history: seq<HistoryItem>, items: seq<HistoryItem>): seq<HistoryItem>
    decreases |items|
  {
    if items == [] then history else AddAllToHistory(AddToHistory(history, items[0]), items[1..])
  }

  /**
   * Recording items one after another keeps the ten most recent entries, newest first:
   * the items in reverse order followed by the old history, cut to HistoryLimit.
   */
  lemma {:induction false} HistoryKeepsNewest(history: seq<HistoryItem>, items: seq<HistoryItem>)
    requires |history| <= HistoryLimit
    ensures AddAllToHistory(history, items) == Take(Reversed(items) + history, HistoryLimit)
    decreases |items|
  {
    if items == [] {
      assert Take(history, HistoryLimit) == history;
    } else {
      var x := items[0];
      var h1 := AddToHistory(history, x);
      HistoryKeepsNewest(h1, items[1..]);
      assert h1 == Take([x] + history, HistoryLimit);
      TakeOfTake(Reversed(items[1..]), [x] + history, HistoryLimit);
      assert Reversed(items) == Reversed(items[1..]) + [x];
      assert Reversed(items[1..]) + ([x] + history) == Reversed(items) + history;
    }
  }

  lemma TakeOfTake<T>(a: seq<T>, b: seq<T>, n: nat)
    ensures Take(a + Take(b, n), n) == Take(a + b, n)
  {
    var l := Min(n, |a + b|);
    assert Take(a + Take(b, n), n) == (a + b)[..l];
  }

  /** The text of a history entry: `previous op current`, multiply written 'x'. */
  function Calculation(s: CalculatorState): string {
    s.previousValue + " " + Symbol(s.operation) + " " + s.currentValue
  }

  /**
   * When neither operand holds a space, the entry text splits on ' ' into the left
   * operand, the operation's symbol and the right operand.
   */
  lemma CalculationSplits(s: CalculatorState)
    requires s.operation != NoOperation && ' ' !in s.previousValue && ' ' !in s.currentValue
    ensures Split(Calculation(s), ' ') == [s.previousValue, Symbol(s.operation), s.currentValue]
  {
    var sym := Symbol(s.operation);
    assert ' ' !in sym;
    assert Calculation(s) == s.previousValue + [' '] + sym + [' '] + s.currentValue;
    SplitThree(s.previousValue, sym, s.currentValue, ' ');
  }

  /** So an entry's text identifies its operands and its operation. */
  lemma CalculationIdentifies(s: CalculatorState, t: CalculatorState)
    requires s.operation != NoOperation && ' ' !in s.previousValue && ' ' !in s.currentValue
    requires t.operation != NoOperation && ' ' !in t.previousValue && ' ' !in t.currentValue
    requires Calculation(s) == Calculation(t)
    ensures s.previousValue == t.previousValue && s.operation == t.operation
    ensures s.currentValue == t.currentValue
  {
    CalculationSplits(s);
    CalculationSplits(t);
    SymbolsDistinct(s.operation, t.operation);
  }

  /** The history after a calculation: an entry is recorded unless the result is "Error". */
  function Record(history: seq<HistoryItem>, calculation: string, result: string): (r: seq<HistoryItem>)
    ensures result == ErrorText ==> r == history
    ensures result != ErrorText ==> r == AddToHistory(history, HistoryItem(calculation, result))
  {
    if result != ErrorText then AddToHistory(history, HistoryItem(calculation, result)) else history
  }

  // ---------------------------------------------------------------------------
  // The handlers, each a transition of the state record

  /**
   * A digit key. While waiting for an operand the text replaces the value; "0" on "0"
   * changes nothing; on "0" any other text but "." replaces it; otherwise the text is
   * appended and the result formatted. Only `currentValue` and the waiting flag change.
   */
  function DigitInput(s: CalculatorState, digit: string): (r: CalculatorState)
    ensures r.previousValue == s.previousValue && r.operation == s.operation
    ensures r.memory == s.memory && r.history == s.history
    ensures s.waitingForOperand ==> r.currentValue == digit && !r.waitingForOperand
    ensures !s.waitingForOperand ==> !r.waitingForOperand
    ensures !s.waitingForOperand && digit == "0" && s.currentValue == "0" ==> r == s
    ensures !s.waitingForOperand && s.currentValue == "0" && digit != "." ==> r.currentValue == digit
    ensures !s.waitingForOperand && (s.currentValue != "0" || digit == ".") ==>
      r.currentValue == FormatDisplayValue(s.currentValue + digit)
  {
    if s.waitingForOperand then s.(currentValue := digit, waitingForOperand := false)
    else if digit == "0" && s.currentValue == "0" then s
    else if s.currentValue == "0" && digit != "." then s.(currentValue := digit)
    else s.(currentValue := FormatDisplayValue(s.currentValue + digit))
  }

  /**
   * The '.' key. While waiting it starts "0."; a value that already holds a '.' is left
   * alone; otherwise one '.' is appended. Only `currentValue` and the waiting flag change.
   */
  function DecimalPoint(s: CalculatorState): (r: CalculatorState)
    ensures r.previousValue == s.previousValue && r.operation == s.operation
    ensures r.memory == s.memory && r.history == s.history
    ensures !r.waitingForOperand
    ensures s.waitingForOperand ==> r.currentValue == "0."
    ensures !s.waitingForOperand && '.' in s.currentValue ==> r == s
    ensures !s.waitingForOperand && '.' !in s.currentValue ==> r.currentValue == s.currentValue + "."
  {
    if s.waitingForOperand then s.(currentValue := "0.", waitingForOperand := false)
    else if '.' in s.currentValue then s
    else s.(currentValue := s.currentValue + ".", waitingForOperand := false)
  }

  /**
   * An operation key. With an operation pending and an operand entered, the pending
   * calculation is carried out: its result becomes both values and is recorded in the
   * history (unless "Error"). Otherwise the current value becomes the left operand. In
   * both cases the new operation is pending and the next digit starts a new operand;
   * memory never changes.
   */
  function OperationInput(s: CalculatorState, op: Operation, showReal: real -> string): (r: CalculatorState)
    ensures r.operation == op && r.waitingForOperand && r.memory == s.memory
    ensures s.operation != NoOperation && !s.waitingForOperand ==>
      var result := PerformCalculation(s.previousValue, s.currentValue, s.operation, showReal);
      && r.currentValue == result && r.previousValue == result
      && r.history == Record(s.history, Calculation(s), result)
    ensures s.operation == NoOperation || s.waitingForOperand ==>
      r.previousValue == s.currentValue && r.currentValue == s.currentValue && r.history == s.history
  {
    if s.operation != NoOperation && !s.waitingForOperand then
      var result := PerformCalculation(s.previousValue, s.currentValue, s.operation, showReal);
      s.(currentValue := result, previousValue := result, operation := op, waitingForOperand := true,
         history := Record(s.history, Calculation(s), result))
    else
      s.(previousValue := s.currentValue, operation := op, waitingForOperand := true)
  }

  /**
   * The '=' key. With no operation pending nothing changes. Otherwise the result becomes
   * the value, is recorded in the history (unless "Error"), the left operand and the
   * operation are cleared and the next digit starts a new operand; memory never changes.
   */
  function Equals(s: CalculatorState, showReal: real -> string): (r: CalculatorState)
    ensures s.operation == NoOperation ==> r == s
    ensures s.operation != NoOperation ==>
      var result := PerformCalculation(s.previousValue, s.currentValue, s.operation, showReal);
      && r.currentValue == result && r.previousValue == "" && r.operation == NoOperation
      && r.waitingForOperand && r.memory == s.memory
      && r.history == Record(s.history, Calculation(s), result)
  {
    if s.operation == NoOperation then s
    else
      var result := PerformCalculation(s.previousValue, s.currentValue, s.operation, showReal);
      s.(currentValue := result, previousValue := "", operation := NoOperation, waitingForOperand := true,
         history := Record(s.history, Calculation(s), result))
  }

  /** AC: back to the initial state, memory and history included. */
  function Clear(s: CalculatorState): (r: CalculatorState)
    ensures r == Initial
  {
    Initial
  }

  /** CE: the value becomes "0" and a new operand may be typed; nothing else changes. */
  function ClearEntry(s: CalculatorState): (r: CalculatorState)
    ensures r.currentValue == "0" && !r.waitingForOperand
    ensures r.previousValue == s.previousValue && r.operation == s.operation
    ensures r.memory == s.memory && r.history == s.history
  {
    s.(currentValue := "0", waitingForOperand := false)
  }

  /** The value with its leading '-' toggled; "0" stays "0". */
  function NegateValue(v: string): string {
    if v == "0" then v
    else if |v| > 0 && v[0] == '-' then v[1..]
    else "-" + v
  }

  /** ±: only `currentValue` changes, to `NegateValue` of it. */
  function Negate(s: CalculatorState): (r: CalculatorState)
    ensures r == s.(currentValue := NegateValue(s.currentValue))
    ensures s.currentValue == "0" ==> r == s
  {
    if s.currentValue == "0" then s else s.(currentValue := NegateValue(s.currentValue))
  }

  /**
   * Negating twice gives the value back, except for "-0" (which becomes "0") and for a
   * value starting with two '-' (which loses both).
   */
  lemma NegateTwice(v: string)
    ensures NegateValue(NegateValue(v)) == v <==> !(v == "-0" || (|v| >= 2 && v[0] == '-' && v[1] == '-'))
  {
    if |v| > 0 && v[0] == '-' && v != "-0" && !(|v| >= 2 && v[1] == '-') {
      assert v == "-" + v[1..];
    }
    if v == "-0" {
      assert NegateValue(v) == "0";
    }
  }

  /** On a number written with its digits first, or '-' then digits, negating negates its value. */
  lemma NegateNegatesValue(v: string)
    requires v != [] && (IsDigit(v[0]) || (|v| >= 2 && v[0] == '-' && IsDigit(v[1])))
    ensures ParseFloat(NegateValue(v)) == Negated(ParseFloat(v))
  {
    if v == "0" {
      ParseZero(v);
    } else if v[0] == '-' {
      var u := v[1..];
      assert v == "-" + u;
      assert NegateValue(v) == u;
      ParseMinus(u);
    } else {
      assert NegateValue(v) == "-" + v;
      ParseMinus(v);
    }
  }

  /** MC, MR, M+ and M-: MR copies memory into the value; the other three change only memory. */
  function MemoryOperation(s: CalculatorState, key: MemoryKey, showReal: real -> string): (r: CalculatorState)
    ensures key == MemoryRecall ==> r == s.(currentValue := s.memory, waitingForOperand := false)
    ensures key != MemoryRecall ==> r == s.(memory := r.memory)
    ensures key == MemoryClear ==> r.memory == "0"
    ensures key == MemoryAdd ==>
      r.memory == NumberToString(Add(ParseFloat(s.memory), ParseFloat(s.currentValue)), showReal)
    ensures key == MemorySubtract ==>
      r.memory == NumberToString(Sub(ParseFloat(s.memory), ParseFloat(s.currentValue)), showReal)
  {
    match key
    case MemoryClear => s.(memory := "0")
    case MemoryRecall => s.(currentValue := s.memory, waitingForOperand := false)
    case MemoryAdd => s.(memory := NumberToString(Add(ParseFloat(s.memory), ParseFloat(s.currentValue)), showReal))
    case MemorySubtract => s.(memory := NumberToString(Sub(ParseFloat(s.memory), ParseFloat(s.currentValue)), showReal))
  }

  /** The memory indicator: lit while memory holds anything but "0". */
  function HasMemory(s: CalculatorState): bool {
    s.memory != "0"
  }

  /**
   * Integers up to 2^53 in magnitude: binary64 addition and subtraction of such integers,
   * with a result in the same range, are exact, so the model's exact sums agree with the
   * program's doubles there.
   */
  const SafeIntegerLimit: real := 9007199254740992.0

  /**
   * With integer memory, value and sum within the exact-integer range, M+ stores the sum
   * and M+ followed by M- leaves the memory as it was.
   */
  lemma MemoryAddSubtract(s: CalculatorState, m: int, c: int, showReal: real -> string)
    requires s.memory == IntegerToString(m) && s.currentValue == IntegerToString(c)
    requires Abs(m as real) <= SafeIntegerLimit && Abs(c as real) <= SafeIntegerLimit
    requires Abs((m + c) as real) <= SafeIntegerLimit
    ensures MemoryOperation(s, MemoryAdd, showReal).memory == IntegerToString(m + c)
    ensures MemoryOperation(MemoryOperation(s, MemoryAdd, showReal), MemorySubtract, showReal) == s
  {
    MemoryAddInteger(s, m, c, showReal);
    var t := MemoryOperation(s, MemoryAdd, showReal);
    MemorySubtractInteger(t, m + c, c, m, showReal);
  }

  /** M+ on integer memory and value stores the exact sum. */
  lemma MemoryAddInteger(s: CalculatorState, m: int, c: int, showReal: real -> string)
    requires s.memory == IntegerToString(m) && s.currentValue == IntegerToString(c)
    requires Abs((m + c) as real) < IntegerPrintLimit
    ensures MemoryOperation(s, MemoryAdd, showReal) == s.(memory := IntegerToString(m + c))
  {
    var x, y := ParseFloat(s.memory), ParseFloat(s.currentValue);
    ParseIntegerToString(m);
    ParseIntegerToString(c);
    SumPrintsInteger(x, y, m, c, showReal);
  }

  lemma SumPrintsInteger(x: Num, y: Num, m: int, c: int, showReal: real -> string)
    requires x == Finite(m as real) && y == Finite(c as real) && Abs((m + c) as real) < IntegerPrintLimit
    ensures NumberToString(Add(x, y), showReal) == IntegerToString(m + c)
  {
    IntegerSum(m, c);
    PrintsInteger(Add(x, y), m + c, showReal);
  }

  /** M- on integer memory and value stores the exact difference. */
  lemma MemorySubtractInteger(s: CalculatorState, a: int, c: int, m: int, showReal: real -> string)
    requires s.memory == IntegerToString(a) && s.currentValue == IntegerToString(c)
    requires a == m + c && Abs(m as real) < IntegerPrintLimit
    ensures MemoryOperation(s, MemorySubtract, showReal) == s.(memory := IntegerToString(m))
  {
    var x, y := ParseFloat(s.memory), ParseFloat(s.currentValue);
    ParseIntegerToString(a);
    ParseIntegerToString(c);
    DifferencePrintsInteger(x, y, a, c, m, showReal);
  }

  lemma DifferencePrintsInteger(x: Num, y: Num, a: int, c: int, m: int, showReal: real -> string)
    requires x == Finite(a as real) && y == Finite(c as real) && a == m + c && Abs(m as real) < IntegerPrintLimit
    ensures NumberToString(Sub(x, y), showReal) == IntegerToString(m)
  {
    IntegerDifference(a, c, m);
    PrintsInteger(Sub(x, y), m, showReal);
  }

  lemma IntegerSum(m: int, c: int)
    ensures Add(Finite(m as real), Finite(c as real)) == Finite((m + c) as real)
  {
  }

  lemma IntegerDifference(a: int, c: int, m: int)
    requires a == m + c
    ensures Sub(Finite(a as real), Finite(c as real)) == Finite(m as real)
  {
  }

  // ---------------------------------------------------------------------------
  // Input events and the keyboard table

  /** What a button or a key asks the calculator to do. */
  datatype Action =
    | PressDigit(digit: string)
    | PressOperation(op: Operation)
    | PressEquals
    | PressClear
    | PressClearEntry
    | PressDecimal
    | PressNegate
    | PressMemory(key: MemoryKey)

  function Apply(s: CalculatorState, a: Action, showReal: real -> string): CalculatorState {
    match a
    case PressDigit(d) => DigitInput(s, d)
    case PressOperation(op) => OperationInput(s, op, showReal)
    case PressEquals => Equals(s, showReal)
    case PressClear => Clear(s)
    case PressClearEntry => ClearEntry(s)
    case PressDecimal => DecimalPoint(s)
    case PressNegate => Negate(s)
    case PressMemory(k) => MemoryOperation(s, k, showReal)
  }

  /** The state after a sequence of actions, first to last. */
  function Run(s: CalculatorState, actions: seq<Action>, showReal: real -> string): CalculatorState
    decreases |actions|
  {
    if actions == [] then s else Run(Apply(s, actions[0], showReal), actions[1..], showReal)
  }

  /**
   * The keyboard: any key name containing a digit is typed whole (so "F5" types "F5");
   * + - * / % are the operations; = and Enter evaluate; . is the decimal point; Escape
   * clears all and Backspace clears the entry. Other keys do nothing.
   */
  function KeyAction(key: string): (r: Option<Action>)
    ensures HasDigit(key) ==> r == Some(PressDigit(key))
    ensures r.Some? ==> !r.value.PressNegate? && !r.value.PressMemory?
    ensures r.Some? && r.value.PressOperation? ==> r.value.op != NoOperation
  {
    if HasDigit(key) then Some(PressDigit(key))
    else if key == "+" then Some(PressOperation(Plus))
    else if key == "-" then Some(PressOperation(Minus))
    else if key == "*" then Some(PressOperation(Times))
    else if key == "/" then Some(PressOperation(Divide))
    else if key == "%" then Some(PressOperation(Percent))
    else if key == "=" || key == "Enter" then Some(PressEquals)
    else if key == "." then Some(PressDecimal)
    else if key == "Escape" then Some(PressClear)
    else if key == "Backspace" then Some(PressClearEntry)
    else None
  }

  /** A character of the class `[\d+\-*\/%.=]`. */
  predicate IsCalculatorChar(c: char) {
    IsDigit(c) || c == '+' || c == '-' || c == '*' || c == '/' || c == '%' || c == '.' || c == '='
  }

  /** The keys whose default browser action is suppressed. */
  predicate PreventsDefault(key: string) {
    (exists i :: 0 <= i < |key| && IsCalculatorChar(key[i]))
      || key == "Enter" || key == "Escape" || key == "Backspace"
  }

  /** Every key the calculator acts on has its default action suppressed. */
  lemma HandledKeysPreventDefault(key: string)
    requires KeyAction(key).Some?
    ensures PreventsDefault(key)
  {
    if !HasDigit(key) && key != "Enter" && key != "Escape" && key != "Backspace" {
      assert |key| == 1 && IsCalculatorChar(key[0]);
    }
  }

  // ---------------------------------------------------------------------------
  // The invariant every transition keeps

  /** At most ten history entries, none of them recording "Error". */
  predicate Valid(s: CalculatorState) {
    && |s.history| <= HistoryLimit
    && forall k :: 0 <= k < |s.history| ==> s.history[k].result != ErrorText
  }

  lemma InitialValid()
    ensures Valid(Initial)
  {
  }

  lemma RecordKeepsValid(history: seq<HistoryItem>, calculation: string, result: string)
    requires |history| <= HistoryLimit && forall k :: 0 <= k < |history| ==> history[k].result != ErrorText
    ensures var h := Record(history, calculation, result);
      |h| <= HistoryLimit && forall k :: 0 <= k < |h| ==> h[k].result != ErrorText
  {
  }

  lemma {:induction false} ApplyKeepsValid(s: CalculatorState, a: Action, showReal: real -> string)
    requires Valid(s)
    ensures Valid(Apply(s, a, showReal))
  {
    match a {
      case PressOperation(op) =>
        RecordKeepsValid(s.history, Calculation(s),
          PerformCalculation(s.previousValue, s.currentValue, s.operation, showReal));
      case PressEquals =>
        RecordKeepsValid(s.history, Calculation(s),
          PerformCalculation(s.previousValue, s.currentValue, s.operation, showReal));
      case _ =>
    }
  }

  lemma {:induction false} RunKeepsValid(s: CalculatorState, actions: seq<Action>, showReal: real -> string)
    requires Valid(s)
    ensures Valid(Run(s, actions, showReal))
    decreases |actions|
  {
    if actions != [] {
      ApplyKeepsValid(s, actions[0], showReal);
      RunKeepsValid(Apply(s, actions[0], showReal), actions[1..], showReal);
    }
  }

  // ---------------------------------------------------------------------------
  // The pairing of operand and operation, for the inputs the keys can produce

  /**
   * Text the display can show: not empty, and a leading '-' is followed by something
   * other than '-'. Typed digits, "Error", "NaN", integer text and the exponential form
   * all have this form, and ± keeps it.
   */
  predicate NumberLike(t: string) {
    t != [] && (t[0] == '-' ==> |t| >= 2 && t[1] != '-')
  }

  /** What JavaScript's `String` guarantees of a number's text: NumberLike, never "Error". */
  ghost predicate StringLike(showReal: real -> string) {
    forall x :: NumberLike(showReal(x)) && showReal(x) != ErrorText
  }

  /**
   * The actions the keypad, the keyboard and the history list produce: a non-null
   * operation, and digit text that is NumberLike (a key name or a recorded result).
   */
  predicate WellFormedAction(a: Action) {
    match a
    case PressDigit(d) => NumberLike(d)
    case PressOperation(op) => op != NoOperation
    case _ => true
  }

  /**
   * The rest of the state's invariant: an operation is pending exactly when a left
   * operand is stored (the expression line relies on it); the value, the memory and every
   * recorded result are NumberLike; the memory never holds "Error".
   */
  predicate Consistent(s: CalculatorState) {
    && (s.operation == NoOperation <==> s.previousValue == [])
    && NumberLike(s.currentValue)
    && NumberLike(s.memory) && s.memory != ErrorText
    && forall k :: 0 <= k < |s.history| ==> NumberLike(s.history[k].result)
  }

  lemma InitialConsistent()
    ensures Consistent(Initial)
  {
  }

  /** The text of an integer is NumberLike. */
  lemma IntegerTextNumberLike(i: int)
    ensures NumberLike(IntegerToString(i))
    ensures IntegerToString(i)[0] == '-' ==> IsDigit(IntegerToString(i)[1])
  {
    if i < 0 {
      var t := NatToString(-i);
      assert IsDigit(t[0]);
    } else {
      assert IsDigit(NatToString(i)[0]);
    }
  }

  /** Every number `String` prints is NumberLike and not "Error". */
  lemma PrintedNumberLike(n: Num, showReal: real -> string)
    requires StringLike(showReal)
    ensures NumberLike(NumberToString(n, showReal)) && NumberToString(n, showReal) != ErrorText
  {
    if n.Finite? && IsIntegral(n.value) && Abs(n.value) < IntegerPrintLimit {
      IntegerTextIsNotError(n.value.Floor);
      IntegerTextNumberLike(n.value.Floor);
    }
  }

  /** A pending calculation's result is NumberLike, whether a number or "Error". */
  lemma EvaluateNumberLike(x: Num, y: Num, op: Operation, b: string, showReal: real -> string)
    requires op != NoOperation && StringLike(showReal)
    ensures NumberLike(Evaluate(x, y, op, b, showReal))
  {
    if !(op == Divide && y == Finite(0.0)) {
      PrintedNumberLike(Arithmetic(x, y, op), showReal);
    }
  }

  /** Appending to NumberLike text keeps it NumberLike. */
  lemma AppendNumberLike(a: string, b: string)
    requires NumberLike(a)
    ensures NumberLike(a + b)
  {
    if a[0] == '-' {
      assert (a + b)[1] == a[1];
    }
  }

  /** The exponential form, or "NaN", is NumberLike. */
  lemma ExponentialNumberLike(n: Num)
    ensures NumberLike(ToExponential6(n))
  {
    if n.Finite? {
      ToExponential6Shape(n.value);
      assert n == Finite(n.value);
    }
  }

  /** Cutting the fraction of NumberLike text keeps it NumberLike. */
  lemma TruncateNumberLike(v: string)
    requires NumberLike(v) && '.' in v
    ensures NumberLike(TruncateDecimal(v))
  {
    var r := TruncateDecimal(v);
    assert r[0] == v[0];
    if v[0] == '-' {
      assert |IntegerPart(v)| == IndexOf(v, '.') >= 1;
      assert r[1] == v[1];
    }
  }

  /** Formatting keeps NumberLike text NumberLike. */
  lemma FormatKeepsNumberLike(v: string)
    requires NumberLike(v)
    ensures NumberLike(FormatDisplayValue(v))
  {
    var num := ParseFloat(v);
    if IsLarge(num) || (DigitCount(v) > MaxDigits && '.' !in v) {
      ExponentialNumberLike(num);
    } else if DigitCount(v) > MaxDigits {
      TruncateNumberLike(v);
    }
  }

  /** ± keeps NumberLike text NumberLike. */
  lemma NegateKeepsNumberLike(v: string)
    requires NumberLike(v)
    ensures NumberLike(NegateValue(v))
  {
  }

  lemma DigitInputConsistent(s: CalculatorState, digit: string)
    requires Consistent(s) && NumberLike(digit)
    ensures Consistent(DigitInput(s, digit))
  {
    if !s.waitingForOperand && !(digit == "0" && s.currentValue == "0")
      && !(s.currentValue == "0" && digit != ".")
    {
      AppendNumberLike(s.currentValue, digit);
      FormatKeepsNumberLike(s.currentValue + digit);
    }
  }

  /** Recording a NumberLike result keeps every recorded result NumberLike. */
  lemma RecordKeepsNumberLike(history: seq<HistoryItem>, calculation: string, result: string)
    requires NumberLike(result)
    requires forall k :: 0 <= k < |history| ==> NumberLike(history[k].result)
    ensures var h := Record(history, calculation, result);
      forall k :: 0 <= k < |h| ==> NumberLike(h[k].result)
  {
  }

  /** A pending calculation, on '=' or an operation key, keeps the state consistent. */
  lemma CalculateConsistent(s: CalculatorState, showReal: real -> string)
    requires Consistent(s) && s.operation != NoOperation && StringLike(showReal)
    ensures var result := PerformCalculation(s.previousValue, s.currentValue, s.operation, showReal);
      && NumberLike(result)
      && forall k :: 0 <= k < |Record(s.history, Calculation(s), result)| ==>
           NumberLike(Record(s.history, Calculation(s), result)[k].result)
  {
    var result := PerformCalculation(s.previousValue, s.currentValue, s.operation, showReal);
    EvaluateNumberLike(Operand(s.previousValue), Operand(s.currentValue), s.operation, s.currentValue, showReal);
    RecordKeepsNumberLike(s.history, Calculation(s), result);
  }

  /**
   * Every well-formed action keeps the state consistent: in particular an operation is
   * pending exactly when a left operand is stored, and memory never holds "Error".
   */
  lemma {:induction false} ApplyKeepsConsistent(s: CalculatorState, a: Action, showReal: real -> string)
    requires Consistent(s) && WellFormedAction(a) && StringLike(showReal)
    ensures Consistent(Apply(s, a, showReal))
  {
    match a {
      case PressDigit(d) =>
        DigitInputConsistent(s, d);
      case PressOperation(op) =>
        if s.operation != NoOperation && !s.waitingForOperand {
          CalculateConsistent(s, showReal);
        }
      case PressEquals =>
        if s.operation != NoOperation {
          CalculateConsistent(s, showReal);
        }
      case PressDecimal =>
        if !s.waitingForOperand && '.' !in s.currentValue {
          AppendNumberLike(s.currentValue, ".");
        }
      case PressNegate =>
        NegateKeepsNumberLike(s.currentValue);
      case PressMemory(k) =>
        MemoryConsistent(s, k, showReal);
      case _ =>
    }
  }

  lemma MemoryConsistent(s: CalculatorState, key: MemoryKey, showReal: real -> string)
    requires Consistent(s) && StringLike(showReal)
    ensures Consistent(MemoryOperation(s, key, showReal))
  {
    var x, y := ParseFloat(s.memory), ParseFloat(s.currentValue);
    if key == MemoryAdd {
      PrintedNumberLike(Add(x, y), showReal);
    } else if key == MemorySubtract {
      PrintedNumberLike(Sub(x, y), showReal);
    }
  }

  lemma {:induction false} RunKeepsConsistent(s: CalculatorState, actions: seq<Action>, showReal: real -> string)
    requires Consistent(s) && StringLike(showReal)
    requires forall k :: 0 <= k < |actions| ==> WellFormedAction(actions[k])
    ensures Consistent(Run(s, actions, showReal))
    decreases |actions|
  {
    if actions != [] {
      ApplyKeepsConsistent(s, actions[0], showReal);
      RunKeepsConsistent(Apply(s, actions[0], showReal), actions[1..], showReal);
    }
  }

  /** A key whose name, if it holds a digit, is NumberLike maps to a well-formed action. */
  lemma KeyActionWellFormed(key: string)
    requires HasDigit(key) ==> NumberLike(key)
    ensures KeyAction(key).Some? ==> WellFormedAction(KeyAction(key).value)
  {
  }

  /** In a consistent state the expression line is shown exactly while an operation is pending. */
  lemma ExpressionLineWhilePending(s: CalculatorState)
    requires Consistent(s)
    ensures Display.ExpressionText(s.previousValue, s.operation) != [] <==> s.operation != NoOperation
  {
  }

  /** Choosing a recorded entry types a well-formed action. */
  lemma HistorySelectionWellFormed(s: CalculatorState, k: nat)
    requires Consistent(s) && k < |s.history|
    ensures WellFormedAction(PressDigit(s.history[k].result))
  {
  }

  // ---------------------------------------------------------------------------
  // Typing numbers

  /** The state after typing the characters of ds one at a time on the digit keys. */
  function TypeDigits(s: CalculatorState, ds: string): CalculatorState
    decreases |ds|
  {
    if ds == [] then s else DigitInput(TypeDigits(s, ds[..|ds| - 1]), [ds[|ds| - 1]])
  }

  /**
   * From a fresh entry (waiting for an operand, or showing "0"), typing up to MaxDigits
   * digits, the first not '0', shows exactly those digits; nothing but the value and the
   * waiting flag changes.
   */
  lemma {:induction false} TypingBuildsNumber(s: CalculatorState, ds: string)
    requires s.waitingForOperand || s.currentValue == "0"
    requires AllDigits(ds) && 1 <= |ds| <= MaxDigits && ds[0] != '0'
    ensures TypeDigits(s, ds) == s.(currentValue := ds, waitingForOperand := false)
    decreases |ds|
  {
    if |ds| == 1 {
      TypeFirstDigit(s, ds);
    } else {
      var p := ds[..|ds| - 1];
      assert AllDigits(p) && p[0] == ds[0];
      TypingBuildsNumber(s, p);
      TypeNextDigit(s, ds);
      AppendDigitKeeps(ds);
    }
  }

  /** The first digit, not '0', replaces a fresh entry. */
  lemma TypeFirstDigit(s: CalculatorState, ds: string)
    requires s.waitingForOperand || s.currentValue == "0"
    requires |ds| == 1 && IsDigit(ds[0]) && ds[0] != '0'
    ensures TypeDigits(s, ds) == s.(currentValue := ds, waitingForOperand := false)
  {
    assert ds[..0] == [];
    assert [ds[0]] == ds;
    assert ds != "0" && ds != ".";
  }

  /** Each later digit is appended to the typed prefix and the result formatted. */
  lemma TypeNextDigit(s: CalculatorState, ds: string)
    requires |ds| >= 2 && IsDigit(ds[|ds| - 1]) && ds[0] != '0'
    requires TypeDigits(s, ds[..|ds| - 1]) == s.(currentValue := ds[..|ds| - 1], waitingForOperand := false)
    ensures TypeDigits(s, ds) == s.(currentValue := FormatDisplayValue(ds), waitingForOperand := false)
  {
    var p := ds[..|ds| - 1];
    var d := [ds[|ds| - 1]];
    var t := TypeDigits(s, p);
    assert TypeDigits(s, ds) == DigitInput(t, d);
    DigitAfterValue(t, d);
    LastSplit(ds);
  }

  /** One more digit after a value that does not start with '0' is appended and formatted. */
  lemma DigitAfterValue(t: CalculatorState, d: string)
    requires !t.waitingForOperand && t.currentValue != [] && t.currentValue[0] != '0'
    requires |d| == 1 && IsDigit(d[0])
    ensures DigitInput(t, d) == t.(currentValue := FormatDisplayValue(t.currentValue + d))
  {
    assert t.currentValue != "0";
    assert d != ".";
  }

  /** Digits of at most MaxDigits, not starting with '0', are displayed as typed. */
  lemma AppendDigitKeeps(ds: string)
    requires AllDigits(ds) && 1 <= |ds| <= MaxDigits
    ensures FormatDisplayValue(ds) == ds
  {
    ParseDigits(ds);
    DigitCountDigits(ds);
    TenMonotone(|ds|, 12);
    assert Ten(12) == 1000000000000;
  }

  /** The 13th digit switches a typed number to exponential form. */
  lemma ThirteenthDigit(s: CalculatorState, ds: string)
    requires s.waitingForOperand || s.currentValue == "0"
    requires AllDigits(ds) && |ds| == MaxDigits + 1 && ds[0] != '0'
    ensures TypeDigits(s, ds).currentValue == ToExponential6(Finite(DigitsValue(ds) as real))
  {
    var p := ds[..|ds| - 1];
    assert AllDigits(p) && p[0] == ds[0];
    TypingBuildsNumber(s, p);
    var t := TypeDigits(s, p);
    assert |t.currentValue| != |"0"|;
    assert TypeDigits(s, ds) == DigitInput(t, [ds[|ds| - 1]]);
    LastSplit(ds);
    LongIntegerToExponential(ds);
  }

  lemma LastSplit(ds: string)
    requires ds != []
    ensures ds[..|ds| - 1] + [ds[|ds| - 1]] == ds
  {
  }

  /**
   * The decimal point leaves exactly one '.' when the value held at most one, and a
   * value that held one or more keeps its count.
   */
  lemma DecimalPointCount(s: CalculatorState)
    ensures var n := multiset(s.currentValue)['.'];
      multiset(DecimalPoint(s).currentValue)['.'] == if s.waitingForOperand then 1 else Max(1, n)
  {
    if !s.waitingForOperand && '.' !in s.currentValue {
      assert multiset(s.currentValue + ".") == multiset(s.currentValue) + multiset(".");
    }
  }

  // ---------------------------------------------------------------------------
  // Scenarios

  /** Choosing a history entry (AC, then the entry's result on the digit path) shows that result on a fresh calculator. */
  lemma SelectHistoryEntry(s: CalculatorState, result: string)
    ensures DigitInput(Clear(s), result) == Initial.(currentValue := if result == "." then "0." else result)
  {
    if result == "." {
      var v := Initial.currentValue + result;
      assert |v| == 2 && v[0] == '0' && v[1] == '.';
      ZeroPointKept(v);
    }
  }

  /** "0." is kept as typed. */
  lemma ZeroPointKept(v: string)
    requires |v| == 2 && v[0] == '0' && v[1] == '.'
    ensures FormatDisplayValue(v) == v
  {
    var whole := v[..1];
    ZeroDigitValue(whole);
    assert v == whole + ['.'] + [];
    ParseDecimal(whole, [], v, 0.0);
  }

  lemma RunStep(s: CalculatorState, a: Action, rest: seq<Action>, showReal: real -> string)
    ensures Run(s, [a] + rest, showReal) == Run(Apply(s, a, showReal), rest, showReal)
  {
    assert ([a] + rest)[1..] == rest;
  }

  /**
   * a op1 b op2 c = evaluates left to right: the second operation applies to the result
   * of the first, and both calculations are recorded, newest first (an "Error" result is
   * not). The first operand may be any key text but ".".
   */
  lemma ChainEvaluatesLeftToRight(a: string, b: string, c: string, op1: Operation, op2: Operation,
                                  showReal: real -> string)
    requires a != "." && op1 != NoOperation && op2 != NoOperation
    ensures Run(Initial, [PressDigit(a), PressOperation(op1), PressDigit(b), PressOperation(op2),
                          PressDigit(c), PressEquals], showReal).currentValue
      == PerformCalculation(PerformCalculation(a, b, op1, showReal), c, op2, showReal)
    ensures Run(Initial, [PressDigit(a), PressOperation(op1), PressDigit(b), PressOperation(op2),
                          PressDigit(c), PressEquals], showReal).history
      == Record(Record([], a + " " + Symbol(op1) + " " + b, PerformCalculation(a, b, op1, showReal)),
                PerformCalculation(a, b, op1, showReal) + " " + Symbol(op2) + " " + c,
                PerformCalculation(PerformCalculation(a, b, op1, showReal), c, op2, showReal))
  {
    var s1 := Apply(Initial, PressDigit(a), showReal);
    assert s1 == Initial.(currentValue := a);
    var s2 := Apply(s1, PressOperation(op1), showReal);
    assert s2 == s1.(previousValue := a, operation := op1, waitingForOperand := true);
    var s3 := Apply(s2, PressDigit(b), showReal);
    assert s3 == s2.(currentValue := b, waitingForOperand := false);
    var r1 := PerformCalculation(a, b, op1, showReal);
    var s4 := Apply(s3, PressOperation(op2), showReal);
    assert s4.currentValue == r1 && s4.previousValue == r1 && s4.operation == op2 && s4.waitingForOperand;
    assert s4.history == Record([], a + " " + Symbol(op1) + " " + b, r1);
    var s5 := Apply(s4, PressDigit(c), showReal);
    assert s5 == s4.(currentValue := c, waitingForOperand := false);
    var s6 := Apply(s5, PressEquals, showReal);
    RunStep(Initial, PressDigit(a), [PressOperation(op1), PressDigit(b), PressOperation(op2), PressDigit(c), PressEquals], showReal);
    RunStep(s1, PressOperation(op1), [PressDigit(b), PressOperation(op2), PressDigit(c), PressEquals], showReal);
    RunStep(s2, PressDigit(b), [PressOperation(op2), PressDigit(c), PressEquals], showReal);
    RunStep(s3, PressOperation(op2), [PressDigit(c), PressEquals], showReal);
    RunStep(s4, PressDigit(c), [PressEquals], showReal);
    RunStep(s5, PressEquals, [], showReal);
  }

  /** 7, M+, AC, MR shows "0": AC also clears the memory. */
  lemma ScenarioClearResetsMemory(showReal: real -> string)
    ensures Run(Initial, [PressDigit("7"), PressMemory(MemoryAdd), PressClear, PressMemory(MemoryRecall)],
                showReal).currentValue == "0"
  {
  }

  /**
   * '=' on a division by a value that reads as 0 shows "Error" and records nothing; the
   * operation and the left operand are cleared as after any '='.
   */
  lemma EqualsDivideByZero(s: CalculatorState, showReal: real -> string)
    requires s.operation == Divide && Operand(s.currentValue) == Finite(0.0)
    ensures Equals(s, showReal).currentValue == ErrorText
    ensures Equals(s, showReal).history == s.history
    ensures Equals(s, showReal).operation == NoOperation
  {
  }

  /** "Error" used as a left operand reads as NaN, so any calculation on it prints "NaN". */
  lemma ErrorOperandGivesNaN(b: string, op: Operation, showReal: real -> string)
    requires op != NoOperation && (op == Divide ==> Operand(b) != Finite(0.0))
    ensures PerformCalculation(ErrorText, b, op, showReal) == "NaN"
  {
    ParseErrorSentinel();
    assert Operand(ErrorText) == NaN;
    assert Arithmetic(NaN, Operand(b), op) == NaN;
  }

  /** The key "F5" contains a digit, so it is typed whole onto the display. */
  lemma ScenarioFunctionKey(showReal: real -> string)
    ensures KeyAction("F5") == Some(PressDigit("F5"))
    ensures Apply(Initial, KeyAction("F5").value, showReal).currentValue == "F5"
  {
    assert IsDigit("F5"[1]);
  }

  // ---------------------------------------------------------------------------
  // The hook: one state cell replaced by each handler

  class Calculator {
    var state: CalculatorState
    /** `String(number)` for values that are not integers below 10^21. */
    const showReal: real -> string

    constructor (showReal: real -> string)
      ensures state == Initial && this.showReal == showReal
    {
      state := Initial;
      this.showReal := showReal;
    }

    /** The value on the display. */
    function DisplayValue(): string
      reads this
    {
      state.currentValue
    }

    method HandleDigitInput(digit: string)
      modifies this
      ensures state == DigitInput(old(state), digit)
    {
      state := DigitInput(state, digit);
    }

    method HandleDecimalPoint()
      modifies this
      ensures state == DecimalPoint(old(state))
    {
      state := DecimalPoint(state);
    }

    method HandleOperationInput(op: Operation)
      modifies this
      ensures state == OperationInput(old(state), op, showReal)
    {
      state := OperationInput(state, op, showReal);
    }

    method HandleEquals()
      modifies this
      ensures state == Equals(old(state), showReal)
    {
      state := Equals(state, showReal);
    }

    method HandleClear()
      modifies this
      ensures state == Initial
    {
      state := Clear(state);
    }

    method HandleClearEntry()
      modifies this
      ensures state == ClearEntry(old(state))
    {
      state := ClearEntry(state);
    }

    method HandleNegate()
      modifies this
      ensures state == Negate(old(state))
    {
      state := Negate(state);
    }

    method HandleMemoryOperation(key: MemoryKey)
      modifies this
      ensures state == MemoryOperation(old(state), key, showReal)
    {
      state := MemoryOperation(state, key, showReal);
    }

    /** A key press: dispatched by the keyboard table; keys outside it change nothing. */
    method HandleKeyDown(key: string)
      modifies this
      ensures KeyAction(key).None? ==> state == old(state)
      ensures KeyAction(key).Some? ==> state == Apply(old(state), KeyAction(key).value, showReal)
      ensures Valid(old(state)) ==> Valid(state)
      ensures Consistent(old(state)) && StringLike(showReal) && (HasDigit(key) ==> NumberLike(key)) ==>
        Consistent(state)
    {
      if KeyAction(key).Some? {
        if Valid(state) {
          ApplyKeepsValid(state, KeyAction(key).value, showReal);
        }
        if Consistent(state) && StringLike(showReal) && (HasDigit(key) ==> NumberLike(key)) {
          KeyActionWellFormed(key);
          ApplyKeepsConsistent(state, KeyAction(key).value, showReal);
        }
      }
      if HasDigit(key) {
        HandleDigitInput(key);
      } else if key == "+" {
        HandleOperationInput(Plus);
      } else if key == "-" {
        HandleOperationInput(Minus);
      } else if key == "*" {
        HandleOperationInput(Times);
      } else if key == "/" {
        HandleOperationInput(Divide);
      } else if key == "%" {
        HandleOperationInput(Percent);
      } else if key == "=" || key == "Enter" {
        HandleEquals();
      } else if key == "." {
        HandleDecimalPoint();
      } else if key == "Escape" {
        HandleClear();
      } else if key == "Backspace" {
        HandleClearEntry();
      }
    }

    /** Choosing a history entry: AC, then the entry's result on the digit path. */
    method SelectHistoryItem(result: string)
      modifies this
      ensures state == Initial.(currentValue := if result == "." then "0." else result)
    {
      HandleClear();
      SelectHistoryEntry(state, result);
      HandleDigitInput(result);
    }
  }
}
