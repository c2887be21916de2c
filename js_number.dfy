/**
 * The three JavaScript number conversions the calculator relies on: `parseFloat`,
 * `String(number)` and `Number.prototype.toExponential(6)`, over numbers read as
 * exact reals. IEEE rounding, overflow and the infinite values are not modelled;
 * where JavaScript's output depends on the binary double (the shortest round-trip
 * digits of a non-integer), the text comes from a caller-supplied `showReal`.
 */
module JsNumber {
  import opened TextUtil

  /** A JavaScript number: a finite value, read as an exact real, or NaN. */
  datatype Num = Finite(value: real) | NaN

  function Abs(x: real): real {
    if x < 0.0 then -x else x
  }

  /** 10^k as a natural number. */
  function Ten(k: nat): (r: nat)
    ensures r >= 1
  {
    if k == 0 then 1 else 10 * Ten(k - 1)
  }

  /** 10^k as a real, for any integer k. */
  function Pow10(k: int): real
    decreases if k < 0 then -k else k
  {
    if k == 0 then 1.0
    else if k > 0 then 10.0 * Pow10(k - 1)
    else Pow10(k + 1) / 10.0
  }

  /** v, negated when `negative` holds. */
  function Signed(negative: bool, v: real): real {
    if negative then -v else v
  }

  /** v * 10^k: the value of a decimal significand v with decimal exponent k. */
  function Scale(v: real, k: int): real {
    v * Pow10(k)
  }

  lemma {:induction false} Pow10Positive(k: int)
    ensures Pow10(k) > 0.0
    decreases if k < 0 then -k else k
  {
    if k > 0 { Pow10Positive(k - 1); } else if k < 0 { Pow10Positive(k + 1); }
  }

  lemma Pow10Step(k: int)
    ensures Pow10(k + 1) == 10.0 * Pow10(k)
  {
  }

  lemma Pow10Add(a: int, b: int)
    ensures Pow10(a + b) == Pow10(a) * Pow10(b)
  {
    if b >= 0 { Pow10AddNat(a, b); } else { Pow10AddNegative(a, b); }
  }

  lemma {:induction false} Pow10AddNat(a: int, b: nat)
    ensures Pow10(a + b) == Pow10(a) * Pow10(b)
  {
    if b > 0 {
      Pow10AddNat(a, b - 1);
      Pow10Step(a + b - 1);
      Pow10Step(b - 1);
      ScaleByTen(Pow10(a), Pow10(b - 1));
    }
  }

  lemma {:induction false} Pow10AddNegative(a: int, b: int)
    requires b <= 0
    ensures Pow10(a + b) == Pow10(a) * Pow10(b)
    decreases -b
  {
    if b < 0 {
      Pow10AddNegative(a, b + 1);
      Pow10Step(a + b);
      Pow10Step(b);
      CancelTen(Pow10(a + b), Pow10(a), Pow10(b));
    }
  }

  lemma ScaleByTen(x: real, y: real)
    ensures 10.0 * (x * y) == x * (10.0 * y)
  {
  }

  lemma CancelTen(z: real, x: real, y: real)
    requires 10.0 * z == x * (10.0 * y)
    ensures z == x * y
  {
  }

  lemma {:induction false} Pow10OfNat(k: nat)
    ensures Pow10(k) == Ten(k) as real
  {
    if k > 0 {
      Pow10OfNat(k - 1);
    }
  }

  // ---------------------------------------------------------------------------
  // Digits

  function DigitValue(c: char): (d: nat)
    requires IsDigit(c)
    ensures d < 10
  {
    c as int - '0' as int
  }

  function DigitChar(d: nat): (c: char)
    requires d < 10
    ensures IsDigit(c) && DigitValue(c) == d
  {
    ('0' as int + d) as char
  }

  /** The value of a string of decimal digits, most significant first. */
  function DigitsValue(s: string): (v: nat)
    requires AllDigits(s)
    ensures v < Ten(|s|)
  {
    if s == [] then 0 else DigitsValue(s[..|s| - 1]) * 10 + DigitValue(s[|s| - 1])
  }

  lemma {:induction false} DigitsValueConcat(a: string, b: string)
    requires AllDigits(a) && AllDigits(b)
    ensures AllDigits(a + b)
    ensures DigitsValue(a + b) == DigitsValue(a) * Ten(|b|) + DigitsValue(b)
  {
    AllDigitsConcat(a, b);
    if b == [] {
      assert a + b == a;
    } else {
      var b' := b[..|b| - 1];
      var ab := a + b;
      assert ab[..|ab| - 1] == a + b';
      assert ab[|ab| - 1] == b[|b| - 1];
      assert AllDigits(b');
      DigitsValueConcat(a, b');
      ShiftDigit(DigitsValue(a), Ten(|b'|), DigitsValue(b'), DigitValue(b[|b| - 1]));
    }
  }

  lemma ShiftDigit(x: int, t: int, y: int, d: int)
    ensures (x * t + y) * 10 + d == x * (10 * t) + (y * 10 + d)
  {
  }

  /** The first digit of a string of digits carries weight 10^(|s|-1). */
  lemma LeadingDigitWeight(s: string)
    requires AllDigits(s) && s != []
    ensures DigitsValue(s) == DigitValue(s[0]) * Ten(|s| - 1) + DigitsValue(s[1..])
  {
    var head, tail := s[..1], s[1..];
    assert AllDigits(head) && AllDigits(tail);
    assert head[..0] == [];
    assert DigitsValue(head) == DigitValue(s[0]);
    DigitsValueConcat(head, tail);
    assert head + tail == s;
  }

  /** The decimal digits of `n`, without leading zeros. */
  function NatToString(n: nat): (s: string)
    ensures |s| >= 1 && AllDigits(s)
    ensures DigitsValue(s) == n
    ensures s[0] == '0' ==> n == 0
  {
    if n < 10 then [DigitChar(n)]
    else
      var t := NatToString(n / 10);
      var s := t + [DigitChar(n % 10)];
      assert s[..|s| - 1] == t;
      assert AllDigits(s) by {
        forall i | 0 <= i < |s| ensures IsDigit(s[i]) {
          if i < |t| { assert s[i] == t[i]; }
        }
      }
      s
  }

  lemma {:induction false} NatToStringLength(n: nat, k: nat)
    requires Ten(k) <= n < Ten(k + 1)
    ensures |NatToString(n)| == k + 1
  {
    if k > 0 {
      NatToStringLength(n / 10, k - 1);
    }
  }

  /** The decimal text of an integer, with '-' for a negative one. */
  function IntegerToString(i: int): string {
    if i < 0 then "-" + NatToString(-i) else NatToString(i)
  }

  // ---------------------------------------------------------------------------
  // parseFloat

  /** The characters JavaScript's `StrWhiteSpaceChar` admits: white space and line terminators. */
  predicate IsWhiteSpace(c: char) {
    var k := c as int;
    k == 0x09 || k == 0x0A || k == 0x0B || k == 0x0C || k == 0x0D || k == 0x20 ||
    k == 0xA0 || k == 0x1680 || (0x2000 <= k <= 0x200A) || k == 0x2028 || k == 0x2029 ||
    k == 0x202F || k == 0x205F || k == 0x3000 || k == 0xFEFF
  }

  function TrimStart(s: string): (t: string)
    ensures |t| <= |s| && t == s[|s| - |t|..]
    ensures t != [] ==> !IsWhiteSpace(t[0])
  {
    if s != [] && IsWhiteSpace(s[0]) then TrimStart(s[1..]) else s
  }

  /** The power of ten written by an exponent part `e[+-]digits` at the start of `r`; 0 when there is none. */
  function ExponentOf(r: string): int {
    if |r| >= 2 && (r[0] == 'e' || r[0] == 'E') then
      var signed := r[1] == '+' || r[1] == '-';
      var ds := if signed then r[2..] else r[1..];
      var k := LeadingDigits(ds);
      if k == 0 then 0
      else if signed && r[1] == '-' then -(DigitsValue(ds[..k]) as int)
      else DigitsValue(ds[..k])
    else 0
  }

  /**
   * JavaScript's `parseFloat`: after leading white space and an optional sign, the longest
   * prefix that is an unsigned decimal literal gives the value; text with no such prefix
   * gives NaN.
   */
  function ParseFloat(s: string): Num {
    var t := TrimStart(s);
    if |t| > 0 && t[0] == '-' then
      match ParseMagnitude(t[1..])
      case NaN => NaN
      case Finite(m) => Finite(-m)
    else if |t| > 0 && t[0] == '+' then ParseMagnitude(t[1..])
    else ParseMagnitude(t)
  }

  /**
   * The value of the longest prefix of `u` that is an unsigned decimal literal: digits with
   * an optional '.', at least one digit in all, then an optional exponent part.
   */
  function ParseMagnitude(u: string): Num {
    var i := LeadingDigits(u);
    if i < |u| && u[i] == '.' then
      var f := LeadingDigits(u[i + 1..]);
      DecimalValue(u[..i], u[i + 1..][..f], u[i + 1 + f..])
    else DecimalValue(u[..i], [], u[i..])
  }

  /**
   * The value of an unsigned decimal literal split into its integer digits, its fraction
   * digits and the text after them, whose exponent part (if any) scales the value; NaN when
   * there are no digits at all.
   */
  function DecimalValue(whole: string, fraction: string, rest: string): Num
    requires AllDigits(whole) && AllDigits(fraction)
  {
    if whole == [] && fraction == [] then NaN
    else
      Finite(Scale(DigitsValue(whole) as real + DigitsValue(fraction) as real / Ten(|fraction|) as real,
                   ExponentOf(rest)))
  }

  lemma LeadingDigitsOfDigits(d: string)
    requires AllDigits(d)
    ensures LeadingDigits(d) == |d|
  {
  }

  /** A string of digits is read as its exact value. */
  lemma ParseMagnitudeDigits(d: string)
    requires AllDigits(d) && d != []
    ensures ParseMagnitude(d) == Finite(DigitsValue(d) as real)
  {
    LeadingDigitsOfDigits(d);
    assert d[..|d|] == d;
    assert d[|d|..] == [];
    assert ExponentOf([]) == 0;
  }

  /** Text that does not start with white space is not trimmed. */
  lemma TrimStartNoSpace(s: string)
    requires s != [] && !IsWhiteSpace(s[0])
    ensures TrimStart(s) == s
  {
  }

  /** A string of digits parses to its exact value. */
  lemma ParseDigits(d: string)
    requires AllDigits(d) && d != []
    ensures ParseFloat(d) == Finite(DigitsValue(d) as real)
  {
    assert IsDigit(d[0]);
    TrimStartNoSpace(d);
    ParseMagnitudeDigits(d);
  }

  /** A '-' followed by a string of digits parses to the negated value. */
  lemma ParseNegativeDigits(d: string)
    requires AllDigits(d) && d != []
    ensures ParseFloat("-" + d) == Finite(-(DigitsValue(d) as real))
  {
    ParseMagnitudeDigits(d);
    ParseSigned(true, d, DigitsValue(d) as real, "-" + d);
  }

  /** The text `IntegerToString` gives parses back to the same integer. */
  lemma ParseIntegerToString(i: int)
    ensures ParseFloat(IntegerToString(i)) == Finite(i as real)
  {
    if i < 0 {
      ParseNegativeDigits(NatToString(-i));
    } else {
      ParseDigits(NatToString(i));
    }
  }

  /** The negation of a number; NaN stays NaN. */
  function Negated(n: Num): Num {
    match n
    case NaN => NaN
    case Finite(x) => Finite(-x)
  }

  /** Putting '-' in front of text that starts with a digit negates what it parses to. */
  lemma ParseMinus(u: string)
    requires u != [] && IsDigit(u[0])
    ensures ParseFloat("-" + u) == Negated(ParseFloat(u))
  {
    TrimStartNoSpace(u);
    ParseAfterMinus(u, "-" + u);
  }

  /** A lone zero digit parses to zero. */
  lemma ParseZero(v: string)
    requires |v| == 1 && v[0] == '0'
    ensures ParseFloat(v) == Finite(0.0)
  {
    ZeroDigitValue(v);
    ParseDigits(v);
  }

  lemma ZeroDigitValue(v: string)
    requires |v| == 1 && v[0] == '0'
    ensures AllDigits(v) && DigitsValue(v) == 0
  {
    assert v[..0] == [];
  }

  lemma ParseEmpty()
    ensures ParseFloat("") == NaN
  {
  }

  /** The division-by-zero sentinel is not numeric text: it parses to NaN, not to 0. */
  lemma ParseErrorSentinel()
    ensures ParseFloat("Error") == NaN
  {
    var s := "Error";
    assert !IsWhiteSpace(s[0]);
    assert TrimStart(s) == s;
    assert !IsDigit(s[0]);
  }

  // ---------------------------------------------------------------------------
  // Arithmetic on numbers; NaN absorbs every operation

  function Add(a: Num, b: Num): Num {
    if a.Finite? && b.Finite? then Finite(a.value + b.value) else NaN
  }

  function Sub(a: Num, b: Num): Num {
    if a.Finite? && b.Finite? then Finite(a.value - b.value) else NaN
  }

  function Mul(a: Num, b: Num): Num {
    if a.Finite? && b.Finite? then Finite(a.value * b.value) else NaN
  }

  /** Division; the calculator never divides by zero, so that case is excluded. */
  function Quot(a: Num, b: Num): Num
    requires b != Finite(0.0)
  {
    if a.Finite? && b.Finite? then Finite(a.value / b.value) else NaN
  }

  // ---------------------------------------------------------------------------
  // String(number)

  const IntegerPrintLimit: real := 1e21

  predicate IsIntegral(x: real) {
    x.Floor as real == x
  }

  /**
   * JavaScript's `String(number)`. NaN prints as "NaN" and an integral value below 10^21
   * in magnitude prints as its plain decimal digits; every other value prints as the
   * shortest text that reads back as the same double, which `showReal` supplies.
   */
  function NumberToString(n: Num, showReal: real -> string): string {
    match n
    case NaN => "NaN"
    case Finite(x) =>
      if IsIntegral(x) && Abs(x) < IntegerPrintLimit then IntegerToString(x.Floor) else showReal(x)
  }

  /** Printing an integer result and parsing the text again gives back the same number. */
  lemma NumberToStringInteger(i: int, showReal: real -> string)
    requires Abs(i as real) < IntegerPrintLimit
    ensures NumberToString(Finite(i as real), showReal) == IntegerToString(i)
    ensures ParseFloat(NumberToString(Finite(i as real), showReal)) == Finite(i as real)
  {
    assert (i as real).Floor == i;
    ParseIntegerToString(i);
  }

  // ---------------------------------------------------------------------------
  // toExponential(6)

  /** The decimal exponent of a positive real: the e with 10^e <= x < 10^(e+1). */
  function Exponent(x: real): (e: int)
    requires x > 0.0
    ensures Pow10(e) <= x < Pow10(e + 1)
    decreases (if x >= 10.0 then x.Floor else 0), (if x < 1.0 then (1.0 / x).Floor else 0)
  {
    if x >= 10.0 then
      TenthHasSmallerFloor(x);
      var e := Exponent(x / 10.0);
      Pow10Step(e);
      Pow10Step(e + 1);
      e + 1
    else if x < 1.0 then
      assert 1.0 / (x * 10.0) == (1.0 / x) / 10.0;
      TenthHasSmallerFloor(1.0 / x);
      var e := Exponent(x * 10.0);
      Pow10Step(e - 1);
      Pow10Step(e);
      e - 1
    else
      0
  }

  lemma TenthHasSmallerFloor(y: real)
    ensures y >= 10.0 ==> (y / 10.0).Floor < y.Floor
  {
    if y >= 10.0 {
      assert (y / 10.0).Floor as real <= y / 10.0;
      assert y < y.Floor as real + 1.0;
    }
  }

  /**
   * The seven significant digits and the exponent `toExponential(6)` picks for x > 0:
   * x / 10^(e-6) rounded half up, with a carry into the exponent when that reaches 10^7.
   */
  function Scientific(x: real): (int, int)
    requires x > 0.0
  {
    var e := Exponent(x);
    Pow10Positive(e - 6);
    var n := (x / Pow10(e - 6) + 0.5).Floor;
    if n == 10000000 then (1000000, e + 1) else (n, e)
  }

  /** `Scientific` picks seven significant digits and an exponent one above the exponent of x at most. */
  lemma ScientificDigits(x: real)
    requires x > 0.0
    ensures var p := Scientific(x); 1000000 <= p.0 < 10000000
    ensures var p := Scientific(x); p.1 == Exponent(x) || p.1 == Exponent(x) + 1
  {
    var e := Exponent(x);
    ScaledBounds(x, e);
    var unit := Pow10(e - 6);
    var n := (x / unit + 0.5).Floor;
    var p := Scientific(x);
    if n == 10000000 {
      assert p == (1000000, e + 1);
      assert p.1 - 6 == e + 1 - 6;
    } else {
      assert p == (n, e);
    }
    RoundedDigits(x, unit, n, p.0, Pow10(p.1 - 6));
  }

  /** d units of size u are within half a unit of x. */
  predicate WithinHalfUnit(x: real, d: int, u: real) {
    -u / 2.0 < d as real * u - x <= u / 2.0
  }

  /** The value of seven digits p.0 under the exponent p.1: p.0 * 10^(p.1 - 6). */
  function SciValue(p: (int, int)): real {
    Scale(p.0 as real, p.1 - 6)
  }

  /** d units of size u are within x / 2,000,000 of x. */
  predicate WithinRelative(x: real, d: int, u: real) {
    -x / 2000000.0 <= d as real * u - x <= x / 2000000.0
  }

  /**
   * The digits `Scientific` picks are the n whose n * 10^(e-6) is nearest to x, ties
   * going to the larger n: what `toExponential` asks for.
   */
  lemma ScientificNearest(x: real)
    requires x > 0.0
    ensures var p := Scientific(x); WithinHalfUnit(x, p.0, Pow10(p.1 - 6))
  {
    var e := Exponent(x);
    ScaledBounds(x, e);
    var unit := Pow10(e - 6);
    var n := (x / unit + 0.5).Floor;
    var p := Scientific(x);
    if n == 10000000 {
      assert p == (1000000, e + 1);
      assert p.1 - 6 == e + 1 - 6;
    } else {
      assert p == (n, e);
    }
    RoundedDigits(x, unit, n, p.0, Pow10(p.1 - 6));
  }

  /** The seven digits `Scientific` picks stand for a value within x / 2,000,000 of x. */
  lemma ScientificRelativeError(x: real)
    requires x > 0.0
    ensures WithinRelative(x, Scientific(x).0, Pow10(Scientific(x).1 - 6))
  {
    var e := Exponent(x);
    ScaledBounds(x, e);
    var unit := Pow10(e - 6);
    var n := (x / unit + 0.5).Floor;
    var p := Scientific(x);
    if n == 10000000 {
      assert p == (1000000, e + 1);
      assert p.1 - 6 == e + 1 - 6;
    } else {
      assert p == (n, e);
    }
    RoundedDigits(x, unit, n, p.0, Pow10(p.1 - 6));
  }

  /**
   * Rounding x / unit half up to n, and carrying 10^7 over to 10^6 of a unit ten times
   * larger, gives seven digits d whose d * u is within half a u of x.
   */
  lemma RoundedDigits(x: real, unit: real, n: int, d: int, u: real)
    requires unit > 0.0 && 1000000.0 * unit <= x < 10000000.0 * unit
    requires n == (x / unit + 0.5).Floor
    requires n == 10000000 ==> d == 1000000 && u == 10.0 * unit
    requires n != 10000000 ==> d == n && u == unit
    ensures 1000000 <= d < 10000000
    ensures WithinHalfUnit(x, d, u)
    ensures WithinRelative(x, d, u)
  {
    QuotientBounds(x, unit);
    RoundingError(x, unit, n);
    if n == 10000000 {
      assert d as real * u == n as real * unit;
    }
  }

  /** With e the exponent of x, the unit 10^(e-6) of the seventh significant digit fits x between 10^6 and 10^7 units. */
  lemma ScaledBounds(x: real, e: int)
    requires x > 0.0 && e == Exponent(x)
    ensures Pow10(e - 6) > 0.0
    ensures 1000000.0 * Pow10(e - 6) <= x < 10000000.0 * Pow10(e - 6)
    ensures Pow10(e + 1 - 6) == 10.0 * Pow10(e - 6)
    ensures Ten(6) == 1000000 && Ten(7) == 10000000
  {
    Pow10Positive(e - 6);
    Pow10Add(e - 6, 6);
    Pow10Add(e - 6, 7);
    Pow10OfNat(6);
    Pow10OfNat(7);
    assert e - 6 + 6 == e && e - 6 + 7 == e + 1;
    Pow10Step(e - 6);
  }

  lemma QuotientBounds(x: real, unit: real)
    requires unit > 0.0
    requires 1000000.0 * unit <= x < 10000000.0 * unit
    ensures 1000000.0 <= x / unit < 10000000.0
  {
    var m := x / unit;
    DivMul(x, unit);
    if m < 1000000.0 { MulLess(m, 1000000.0, unit); }
    if m >= 10000000.0 { MulLeq(10000000.0, m, unit); }
  }

  /** Rounding x / unit half up to n leaves n * unit within half a unit of x, and at most x / 2,000,000 away. */
  lemma RoundingError(x: real, unit: real, n: int)
    requires unit > 0.0 && 1000000.0 * unit <= x
    requires n == (x / unit + 0.5).Floor
    ensures -unit / 2.0 < n as real * unit - x <= unit / 2.0
    ensures Abs(n as real * unit - x) <= x / 2000000.0
  {
    var m := x / unit;
    DivMul(x, unit);
    var d := n as real - m;
    assert -0.5 < d <= 0.5;
    assert n as real * unit - x == d * unit;
    MulLess(-0.5, d, unit);
    MulLeq(d, 0.5, unit);
  }

  lemma MulLess(a: real, b: real, c: real)
    requires c > 0.0 && a < b
    ensures a * c < b * c
  {
  }

  lemma MulLeq(a: real, b: real, c: real)
    requires c > 0.0 && a <= b
    ensures a * c <= b * c
  {
  }

  lemma DivMul(x: real, u: real)
    requires u > 0.0
    ensures (x / u) * u == x
  {
  }

  /** The text `d.dddddd` `e` `+|-` `exponent digits`, with a leading '-' for a negative number. */
  function ExponentialText(negative: bool, digits: string, e: int): string
    requires |digits| == 7
  {
    (if negative then "-" else "") + UnsignedExponential(digits, e)
  }

  /** `d.dddddd` `e` `+|-` `exponent digits`: the text after the sign. */
  function UnsignedExponential(digits: string, e: int): string
    requires |digits| >= 1
  {
    [digits[0], '.'] + digits[1..] + ['e', if e < 0 then '-' else '+'] + NatToString(if e < 0 then -e else e)
  }

  /**
   * JavaScript's `toExponential(6)`: seven significant digits, one before the point, and
   * a signed exponent. Zero gives "0.000000e+0"; NaN gives "NaN".
   */
  function ToExponential6(n: Num): string {
    match n
    case NaN => "NaN"
    case Finite(x) =>
      if x == 0.0 then ExponentialText(false, "0000000", 0)
      else ExponentialText(x < 0.0, SevenDigits(Abs(x)), Scientific(Abs(x)).1)
  }

  /** The seven significant digits of x > 0, as `toExponential(6)` writes them. */
  function SevenDigits(x: real): (d: string)
    requires x > 0.0
    ensures |d| == 7 && AllDigits(d)
    ensures DigitsValue(d) == Scientific(x).0
  {
    var p := Scientific(x);
    ScientificDigits(x);
    NatToStringLength(p.0, 6);
    NatToString(p.0)
  }

  /** The shape of an exponential text: sign, one digit, '.', six digits, 'e', exponent sign, digits. */
  predicate IsExponentialText(s: string) {
    var k := if |s| > 0 && s[0] == '-' then 1 else 0;
    && |s| >= k + 11
    && IsDigit(s[k])
    && s[k + 1] == '.'
    && AllDigits(s[k + 2..k + 8])
    && s[k + 8] == 'e'
    && (s[k + 9] == '+' || s[k + 9] == '-')
    && AllDigits(s[k + 10..])
  }

  lemma ExponentialTextShape(negative: bool, digits: string, e: int)
    requires |digits| == 7 && AllDigits(digits)
    ensures IsExponentialText(ExponentialText(negative, digits, e))
    ensures var s := ExponentialText(negative, digits, e); (s[0] == '-') == negative
    ensures var s := ExponentialText(negative, digits, e);
      var k := if negative then 1 else 0;
      (s[k + 9] == '-') == (e < 0) && s[k + 10..] == NatToString(if e < 0 then -e else e)
  {
    var ds := NatToString(if e < 0 then -e else e);
    assert AllDigits(ds);
    LayoutShape(if negative then "-" else "", digits, if e < 0 then '-' else '+', ds);
  }

  /** The positions of the pieces in `d.dddddd e x exponent`, whatever the exponent digits. */
  lemma MantissaShape(digits: string, expSign: char, ds: string)
    requires |digits| == 7 && AllDigits(digits) && |ds| >= 1 && AllDigits(ds)
    requires expSign == '+' || expSign == '-'
    ensures var body := [digits[0], '.'] + digits[1..] + ['e', expSign] + ds;
      && |body| >= 11 && IsDigit(body[0]) && body[1] == '.' && AllDigits(body[2..8])
      && body[8] == 'e' && body[9] == expSign && body[10..] == ds
  {
    var body := [digits[0], '.'] + digits[1..] + ['e', expSign] + ds;
    assert body[2..8] == digits[1..];
    assert body[10..] == ds;
  }

  /** Putting a sign in front of an unsigned exponential text keeps its shape, shifted by one. */
  lemma LayoutShape(sign: string, digits: string, expSign: char, ds: string)
    requires sign == "" || sign == "-"
    requires |digits| == 7 && AllDigits(digits) && |ds| >= 1 && AllDigits(ds)
    requires expSign == '+' || expSign == '-'
    ensures var s := sign + ([digits[0], '.'] + digits[1..] + ['e', expSign] + ds);
      var k := |sign|;
      && IsExponentialText(s)
      && (s[0] == '-') == (sign == "-")
      && s[k + 9] == expSign
      && s[k + 10..] == ds
  {
    var body := [digits[0], '.'] + digits[1..] + ['e', expSign] + ds;
    MantissaShape(digits, expSign, ds);
    var s := sign + body;
    var k := |sign|;
    assert s[k..] == body;
    assert s[k + 2..k + 8] == body[2..8];
    assert s[k + 10..] == body[10..];
  }

  /** An exponential text holds exactly one '.'. */
  lemma ExponentialTextOnePoint(negative: bool, digits: string, e: int)
    requires |digits| == 7 && AllDigits(digits)
    ensures multiset(ExponentialText(negative, digits, e))['.'] == 1
  {
    var sign := if negative then "-" else "";
    var ds := NatToString(if e < 0 then -e else e);
    var expSign := if e < 0 then '-' else '+';
    NoPoint(digits[1..]);
    NoPoint(ds);
    assert multiset([digits[0], '.'])['.'] == 1;
    assert multiset(['e', expSign])['.'] == 0;
    assert ExponentialText(negative, digits, e) == sign + ([digits[0], '.'] + digits[1..] + ['e', expSign] + ds);
  }

  lemma NoPoint(s: string)
    requires AllDigits(s)
    ensures multiset(s)['.'] == 0
  {
    assert '.' !in s;
  }
  /** The exponential text of a non-zero number parses back to within one part in 2,000,000 of it. */
  lemma ToExponential6Close(x: real)
    requires x != 0.0
    ensures ParseFloat(ToExponential6(Finite(x))).Finite?
    ensures Abs(ParseFloat(ToExponential6(Finite(x))).value - x) <= Abs(x) / 2000000.0
  {
    ToExponential6Value(x);
    ScientificRelativeError(Abs(x));
    SignedClose(x, ParseFloat(ToExponential6(Finite(x))), Scientific(Abs(x)));
  }

  /** The exponential text of a non-zero number reads back as its rounded seven digits times 10^(e-6), with its sign. */
  lemma ToExponential6Value(x: real)
    requires x != 0.0
    ensures ParseFloat(ToExponential6(Finite(x))) == Finite(Signed(x < 0.0, SciValue(Scientific(Abs(x)))))
  {
    ToExponential6Nonzero(x);
    ParseExponentialText(x < 0.0, SevenDigits(Abs(x)), Scientific(Abs(x)));
  }

  lemma ToExponential6Nonzero(x: real)
    requires x != 0.0
    ensures ToExponential6(Finite(x)) == ExponentialText(x < 0.0, SevenDigits(Abs(x)), Scientific(Abs(x)).1)
  {
  }

  /** Restoring the sign of a magnitude within one part in 2,000,000 keeps the same relative error. */
  lemma SignedClose(x: real, r: Num, p: (int, int))
    requires r == Finite(Signed(x < 0.0, SciValue(p)))
    requires WithinRelative(Abs(x), p.0, Pow10(p.1 - 6))
    ensures r.Finite? && Abs(r.value - x) <= Abs(x) / 2000000.0
  {
  }

  /** An exponential text parses to its seven digits (worth n) times 10^(e-6), negated when signed. */
  lemma ParseExponentialText(negative: bool, digits: string, p: (int, int))
    requires |digits| == 7 && AllDigits(digits) && DigitsValue(digits) == p.0
    ensures ParseFloat(ExponentialText(negative, digits, p.1)) == Finite(Signed(negative, SciValue(p)))
  {
    ParseUnsignedExponential(digits, p);
    ParseSigned(negative, UnsignedExponential(digits, p.1), SciValue(p), ExponentialText(negative, digits, p.1));
  }

  lemma ParseUnsignedExponential(digits: string, p: (int, int))
    requires |digits| == 7 && AllDigits(digits) && DigitsValue(digits) == p.0
    ensures var u := UnsignedExponential(digits, p.1);
      u != [] && IsDigit(u[0]) && ParseMagnitude(u) == Finite(SciValue(p))
  {
    var e := p.1;
    var c := if e < 0 then '-' else '+';
    var ds := NatToString(if e < 0 then -e else e);
    ExponentPart(c, ds);
    LeadingDigitWeight(digits);
    MagnitudeOfExponential(digits[0], digits[1..], c, ds, e, p.0, p.1 - 6);
  }

  /** `d.ddd` `e` `c` `ds` reads as the integer n = dddd times 10 to (the exponent x minus the number of fraction digits). */
  lemma MagnitudeOfExponential(lead: char, frac: string, c: char, ds: string, x: int, n: nat, shifted: int)
    requires IsDigit(lead) && AllDigits(frac) && (c == '+' || c == '-') && |ds| >= 1 && AllDigits(ds)
    requires ExponentOf(['e', c] + ds) == x && shifted == x - |frac|
    requires n == DigitValue(lead) * Ten(|frac|) + DigitsValue(frac)
    ensures ParseMagnitude([lead, '.'] + frac + ['e', c] + ds) == Finite(Scale(n as real, shifted))
  {
    RegroupExponential(lead, frac, c, ds);
    ParseMagnitudeWithPoint([lead], frac, ['e', c] + ds);
    DecimalValueOfMantissa(lead, frac, ['e', c] + ds, x, n, shifted);
  }

  lemma RegroupExponential(lead: char, frac: string, c: char, ds: string)
    ensures [lead, '.'] + frac + ['e', c] + ds == [lead] + ['.'] + frac + (['e', c] + ds)
  {
  }

  lemma DecimalValueOfMantissa(lead: char, frac: string, rest: string, x: int, n: nat, shifted: int)
    requires IsDigit(lead) && AllDigits(frac) && ExponentOf(rest) == x && shifted == x - |frac|
    requires n == DigitValue(lead) * Ten(|frac|) + DigitsValue(frac)
    ensures DecimalValue([lead], frac, rest) == Finite(Scale(n as real, shifted))
  {
    var a := DigitValue(lead) as real + DigitsValue(frac) as real / Ten(|frac|) as real;
    SingleDigitValue(lead);
    DecimalValueParts([lead], frac, rest, a, x);
    MantissaValue(DigitValue(lead), DigitsValue(frac), |frac|, x, n, a, shifted);
  }

  lemma SingleDigitValue(c: char)
    requires IsDigit(c)
    ensures DigitsValue([c]) == DigitValue(c)
  {
    assert [c][..0] == [];
  }

  /** The value of whole '.' fraction with an exponent part, from the values of its pieces. */
  lemma DecimalValueParts(whole: string, fraction: string, rest: string, a: real, x: int)
    requires whole != [] && AllDigits(whole) && AllDigits(fraction) && ExponentOf(rest) == x
    requires a == DigitsValue(whole) as real + DigitsValue(fraction) as real / Ten(|fraction|) as real
    ensures DecimalValue(whole, fraction, rest) == Finite(Scale(a, x))
  {
  }

  /** Digits, a '.' and digits parse to the integer part plus the fraction. */
  lemma ParseDecimal(whole: string, fraction: string, s: string, a: real)
    requires whole != [] && AllDigits(whole) && AllDigits(fraction)
    requires s == whole + ['.'] + fraction
    requires a == DigitsValue(whole) as real + DigitsValue(fraction) as real / Ten(|fraction|) as real
    ensures ParseFloat(s) == Finite(a)
  {
    ParseUnsigned(s);
    ParseMagnitudeDecimal(whole, fraction, s);
    DecimalValueNoExponent(whole, fraction, a);
  }

  lemma ParseMagnitudeDecimal(whole: string, fraction: string, s: string)
    requires whole != [] && AllDigits(whole) && AllDigits(fraction)
    requires s == whole + ['.'] + fraction
    ensures ParseMagnitude(s) == DecimalValue(whole, fraction, [])
  {
    assert s == whole + ['.'] + fraction + [];
    ParseMagnitudeWithPoint(whole, fraction, []);
  }

  /** Text that starts with a digit is read as an unsigned literal. */
  lemma ParseUnsigned(s: string)
    requires s != [] && IsDigit(s[0])
    ensures ParseFloat(s) == ParseMagnitude(s)
  {
    TrimStartNoSpace(s);
  }

  lemma DecimalValueNoExponent(whole: string, fraction: string, a: real)
    requires whole != [] && AllDigits(whole) && AllDigits(fraction)
    requires a == DigitsValue(whole) as real + DigitsValue(fraction) as real / Ten(|fraction|) as real
    ensures DecimalValue(whole, fraction, []) == Finite(a)
  {
    assert ExponentOf([]) == 0;
    DecimalValueParts(whole, fraction, [], a, 0);
    ScaleZero(a);
  }

  lemma ScaleZero(v: real)
    ensures Scale(v, 0) == v
  {
    assert Pow10(0) == 1.0;
  }

  /** Digits, a '.', digits, then a rest that does not start with a digit: the scanner splits the text there. */
  lemma ParseMagnitudeWithPoint(a: string, b: string, r: string)
    requires a != [] && AllDigits(a) && AllDigits(b)
    requires r == [] || !IsDigit(r[0])
    ensures ParseMagnitude(a + ['.'] + b + r) == DecimalValue(a, b, r)
  {
    ScanIntegerPart(a, b, r);
    ScanFractionPart(a, b, r);
  }

  lemma ScanIntegerPart(a: string, b: string, r: string)
    requires AllDigits(a)
    ensures var u := a + ['.'] + b + r;
      LeadingDigits(u) == |a| && u[|a|] == '.' && u[..|a|] == a
  {
    var u := a + ['.'] + b + r;
    assert u == a + (['.'] + b + r);
    LeadingDigitsConcat(a, ['.'] + b + r);
  }

  lemma ScanFractionPart(a: string, b: string, r: string)
    requires AllDigits(b)
    requires r == [] || !IsDigit(r[0])
    ensures var u := a + ['.'] + b + r;
      LeadingDigits(u[|a| + 1..]) == |b| && u[|a| + 1..][..|b|] == b && u[|a| + 1 + |b|..] == r
  {
    var u := a + ['.'] + b + r;
    assert u[|a| + 1..] == b + r;
    LeadingDigitsConcat(b, r);
  }

  /** The exponent part `e` `c` `ds` stands for the value of ds, negated when c is '-'. */
  lemma ExponentPart(c: char, ds: string)
    requires (c == '+' || c == '-') && |ds| >= 1 && AllDigits(ds)
    ensures ExponentOf(['e', c] + ds) == if c == '-' then -(DigitsValue(ds) as int) else DigitsValue(ds)
  {
    var r := ['e', c] + ds;
    assert r[2..] == ds;
    LeadingDigitsOfDigits(ds);
    assert ds[..|ds|] == ds;
  }

  /** d.ddd (k fraction digits worth t) times 10^e is the integer dddd times 10^(e-k). */
  lemma MantissaValue(d: nat, t: nat, k: nat, e: int, n: nat, a: real, shifted: int)
    requires n == d * Ten(k) + t && a == d as real + t as real / Ten(k) as real && shifted == e - k
    ensures Scale(a, e) == Scale(n as real, shifted)
  {
    CastProduct(d, Ten(k));
    ClearFraction(d as real, t as real, Ten(k) as real);
    ScaleShift(a, e, k, n as real, shifted);
  }

  /** Moving k decimal places from the exponent into the significand keeps the value. */
  lemma ScaleShift(v: real, e: int, k: nat, w: real, shifted: int)
    requires w == v * Ten(k) as real && shifted == e - k
    ensures Scale(v, e) == Scale(w, shifted)
  {
    Pow10Split(e, k);
    Associate(v, Pow10(e - k), Ten(k) as real);
  }

  lemma Associate(a: real, b: real, c: real)
    ensures a * (b * c) == (a * c) * b
  {
  }

  /** 10^e = 10^(e-k) * 10^k, with 10^k written as the natural number `Ten(k)`. */
  lemma Pow10Split(e: int, k: nat)
    ensures Pow10(e) == Pow10(e - k) * Ten(k) as real
  {
    var j := e - k;
    Pow10Add(j, k);
    assert j + k == e;
    Pow10OfNat(k);
  }

  lemma CastProduct(a: int, b: int)
    ensures (a * b) as real == a as real * b as real
  {
  }

  lemma ClearFraction(d: real, t: real, m: real)
    requires m > 0.0
    ensures (d + t / m) * m == d * m + t
  {
  }

  /** A text starting with a digit parses, behind an optional '-', to its magnitude, negated when signed. */
  lemma ParseSigned(negative: bool, u: string, v: real, s: string)
    requires u != [] && IsDigit(u[0]) && ParseMagnitude(u) == Finite(v)
    requires s == (if negative then "-" else "") + u
    ensures ParseFloat(s) == Finite(Signed(negative, v))
  {
    if negative {
      ParseMinusText(u, v, s);
    } else {
      assert s == u;
      ParseDigitText(u, v, s);
    }
  }

  lemma ParseMinusText(u: string, v: real, s: string)
    requires u != [] && IsDigit(u[0]) && ParseMagnitude(u) == Finite(v) && s == "-" + u
    ensures ParseFloat(s) == Finite(Signed(true, v))
  {
    ParseAfterMinus(u, s);
  }

  lemma ParseDigitText(u: string, v: real, s: string)
    requires u != [] && IsDigit(u[0]) && ParseMagnitude(u) == Finite(v) && s == u
    ensures ParseFloat(s) == Finite(Signed(false, v))
  {
    TrimStartNoSpace(u);
  }

  lemma ParseAfterMinus(u: string, s: string)
    requires u != [] && IsDigit(u[0]) && s == "-" + u
    ensures TrimStart(s)[1..] == u && TrimStart(s)[0] == '-'
  {
    TrimStartNoSpace(s);
    assert s[1..] == u;
  }


  /** `toExponential(6)` of a finite number always has the exponential shape, with exactly one '.'. */
  lemma ToExponential6Shape(x: real)
    ensures WellFormedExponential(ToExponential6(Finite(x)), x < 0.0)
  {
    if x == 0.0 {
      ExponentialTextWellFormed(false, "0000000", 0);
    } else {
      ToExponential6Nonzero(x);
      ExponentialTextWellFormed(x < 0.0, SevenDigits(Abs(x)), Scientific(Abs(x)).1);
    }
  }

  /** An exponential text, with exactly one '.', starting with '-' exactly when `negative`. */
  predicate WellFormedExponential(s: string, negative: bool) {
    IsExponentialText(s) && multiset(s)['.'] == 1 && (s[0] == '-') == negative
  }

  lemma ExponentialTextWellFormed(negative: bool, digits: string, e: int)
    requires |digits| == 7 && AllDigits(digits)
    ensures WellFormedExponential(ExponentialText(negative, digits, e), negative)
  {
    ExponentialTextShape(negative, digits, e);
    ExponentialTextOnePoint(negative, digits, e);
  }

  /** A number of magnitude at least 10^12 gets an exponent of at least 12, written with '+'. */
  lemma ToExponential6Large(x: real)
    requires Abs(x) >= 1e12
    ensures var s := ToExponential6(Finite(x)); var k := if x < 0.0 then 1 else 0;
      IsExponentialText(s) && s[k + 9] == '+' && DigitsValue(s[k + 10..]) >= 12
  {
    var p := Scientific(Abs(x));
    LargeExponent(Abs(x));
    ToExponential6Nonzero(x);
    ExponentialTextShape(x < 0.0, SevenDigits(Abs(x)), p.1);
  }

  /** 10^12 <= a puts the decimal exponent of a at 12 or more. */
  lemma LargeExponent(a: real)
    requires a >= 1e12
    ensures Scientific(a).1 >= 12
  {
    var e := Exponent(a);
    ScientificDigits(a);
    if e < 12 {
      Pow10Monotone(e + 1, 12);
      assert false;
    }
  }

  lemma {:induction false} Pow10Monotone(a: int, b: int)
    requires a <= b
    ensures Pow10(a) <= Pow10(b)
    decreases b - a
  {
    if a < b {
      Pow10Monotone(a, b - 1);
      Pow10Step(b - 1);
      Pow10Positive(b - 1);
    }
  }
}
