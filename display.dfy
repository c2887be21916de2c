/**
 * The calculator display's text rules: thousands separators for the main value, the
 * font-size class chosen from the value's length, and the expression line above it.
 */
module Display {
  import opened TextUtil
  import opened CalculatorTypes

  // ---------------------------------------------------------------------------
  // Thousands grouping: `intPart.replace(/\B(?=(\d{3})+(?!\d))/g, ',')`

  /** A character of the regular-expression class `\w`. */
  predicate IsWordChar(c: char) {
    'a' <= c <= 'z' || 'A' <= c <= 'Z' || '0' <= c <= '9' || c == '_'
  }

  /**
   * The pattern matches the empty text before index i: i is not a word boundary
   * (`\B`, and since a digit follows, s[i-1] is a word character), and the digits
   * starting at i come in a positive multiple of three followed by a non-digit or the end.
   */
  predicate CommaBefore(s: string, i: nat)
    requires i <= |s|
  {
    var run := DigitsFrom(s, i);
    i >= 1 && IsWordChar(s[i - 1]) && run >= 3 && run % 3 == 0
  }

  /** The number of digits in s starting at index i. */
  function DigitsFrom(s: string, i: nat): (n: nat)
    requires i <= |s|
    ensures i + n <= |s|
    decreases |s| - i
  {
    if i < |s| && IsDigit(s[i]) then 1 + DigitsFrom(s, i + 1) else 0
  }

  /** s[i..] with a ',' inserted at every match position. */
  function GroupFrom(s: string, i: nat): string
    requires i <= |s|
    decreases |s| - i
  {
    if i == |s| then []
    else if CommaBefore(s, i) then [',', s[i]] + GroupFrom(s, i + 1)
    else [s[i]] + GroupFrom(s, i + 1)
  }

  function GroupThousands(s: string): string {
    GroupFrom(s, 0)
  }

  /** Digits grouped by threes from the right, the leftmost group holding one to three digits. */
  function Grouped(s: string): string
    decreases |s|
  {
    if |s| <= 3 then s else Grouped(s[..|s| - 3]) + [','] + s[|s| - 3..]
  }

  /** Grouping only inserts commas: deleting them gives back the text without its own commas. */
  lemma {:induction false} GroupFromRemovesToInput(s: string, i: nat)
    requires i <= |s|
    ensures Without(GroupFrom(s, i), {','}) == Without(s[i..], {','})
    decreases |s| - i
  {
    if i < |s| {
      var rest := GroupFrom(s, i + 1);
      var kept := Without([s[i]] + rest, {','});
      calc {
        kept;
        { WithoutConcat([s[i]], rest, {','}); }
        Without([s[i]], {','}) + Without(rest, {','});
        { GroupFromRemovesToInput(s, i + 1); }
        Without([s[i]], {','}) + Without(s[i + 1..], {','});
        { WithoutConcat([s[i]], s[i + 1..], {','}); }
        Without([s[i]] + s[i + 1..], {','});
        { assert [s[i]] + s[i + 1..] == s[i..]; }
        Without(s[i..], {','});
      }
      if CommaBefore(s, i) {
        assert GroupFrom(s, i) == [','] + ([s[i]] + rest) by {
          assert [',', s[i]] + rest == [','] + ([s[i]] + rest);
        }
        DropLeadingComma([s[i]] + rest);
      } else {
        assert GroupFrom(s, i) == [s[i]] + rest;
      }
    }
  }

  lemma DropLeadingComma(t: string)
    ensures Without([','] + t, {','}) == Without(t, {','})
  {
    assert ([','] + t)[1..] == t;
  }

  lemma GroupThousandsRemovesToInput(s: string)
    ensures Without(GroupThousands(s), {','}) == Without(s, {','})
  {
    GroupFromRemovesToInput(s, 0);
    assert s[0..] == s;
  }

  /** In a run of digits, a comma goes before index i exactly when a positive multiple of three digits follows. */
  lemma CommaBeforeDigits(s: string, i: nat)
    requires AllDigits(s) && i < |s|
    ensures CommaBefore(s, i) <==> i >= 1 && (|s| - i) % 3 == 0
  {
    DigitsFromAll(s, i);
  }

  lemma {:induction false} DigitsFromAll(s: string, i: nat)
    requires AllDigits(s) && i <= |s|
    ensures DigitsFrom(s, i) == |s| - i
    decreases |s| - i
  {
    if i < |s| {
      DigitsFromAll(s, i + 1);
    }
  }

  /** The last one or two digits of a run get no comma, as fewer than three digits follow. */
  lemma {:induction false} GroupFromShortTail(s: string, i: nat)
    requires AllDigits(s) && i <= |s| && |s| - i < 3
    ensures GroupFrom(s, i) == s[i..]
    decreases |s| - i
  {
    if i < |s| {
      CommaBeforeDigits(s, i);
      GroupFromShortTail(s, i + 1);
      assert s[i..] == [s[i]] + s[i + 1..];
    }
  }

  /** Appending three digits to a non-empty run of digits appends a comma and those digits. */
  lemma {:induction false} GroupFromAppend(a: string, b: string, i: nat)
    requires AllDigits(a) && AllDigits(b) && a != [] && |b| == 3 && i <= |a|
    ensures GroupFrom(a + b, i) == GroupFrom(a, i) + [','] + b
    decreases |a| - i
  {
    AllDigitsConcat(a, b);
    if i == |a| {
      GroupFromAppendEnd(a, b);
    } else {
      CommaBeforeDigits(a + b, i);
      CommaBeforeDigits(a, i);
      GroupFromAppend(a, b, i + 1);
      GroupFromAppendStep(a, b, i);
    }
  }

  /** Three digits after the end of a: a comma, then those digits. */
  lemma GroupFromAppendEnd(a: string, b: string)
    requires AllDigits(a + b) && a != [] && |b| == 3
    ensures GroupFrom(a + b, |a|) == [','] + b
  {
    var i := |a|;
    CommaBeforeDigits(a + b, i);
    GroupFromShortTail(a + b, i + 1);
    GroupFromCommaThenPlain(a + b, i);
    assert (a + b)[i..] == b;
  }

  /** Where a comma goes and no further one follows, the rest is the comma and the text. */
  lemma GroupFromCommaThenPlain(s: string, k: nat)
    requires k < |s| && CommaBefore(s, k) && GroupFrom(s, k + 1) == s[k + 1..]
    ensures GroupFrom(s, k) == [','] + s[k..]
  {
    assert s[k..] == [s[k]] + s[k + 1..];
  }

  lemma GroupFromAppendStep(a: string, b: string, i: nat)
    requires i < |a|
    requires CommaBefore(a + b, i) == CommaBefore(a, i)
    requires GroupFrom(a + b, i + 1) == GroupFrom(a, i + 1) + [','] + b
    ensures GroupFrom(a + b, i) == GroupFrom(a, i) + [','] + b
  {
    assert (a + b)[i] == a[i];
  }

  /** A run of at most three digits gets no comma. */
  lemma GroupThousandsShort(s: string)
    requires AllDigits(s) && |s| <= 3
    ensures GroupThousands(s) == s
  {
    if s != [] {
      CommaBeforeDigits(s, 0);
      GroupFromShortTail(s, 1);
      assert s == [s[0]] + s[1..];
    }
  }

  /** On a run of digits the regular expression groups by threes from the right. */
  lemma {:induction false} GroupThousandsDigits(s: string)
    requires AllDigits(s)
    ensures GroupThousands(s) == Grouped(s)
    decreases |s|
  {
    if |s| <= 3 {
      GroupThousandsShort(s);
    } else {
      var a := s[..|s| - 3];
      var b := s[|s| - 3..];
      assert s == a + b;
      GroupThousandsDigits(a);
      GroupFromAppend(a, b, 0);
    }
  }

  /** The reference grouping of n >= 1 digits adds (n - 1) / 3 characters, all of them commas. */
  lemma {:induction false} GroupedCounts(s: string)
    requires AllDigits(s) && s != []
    ensures |Grouped(s)| == |s| + (|s| - 1) / 3
    ensures multiset(Grouped(s))[','] == (|s| - 1) / 3
    decreases |s|
  {
    if |s| <= 3 {
      assert ',' !in s;
    } else {
      var a := s[..|s| - 3];
      var b := s[|s| - 3..];
      assert AllDigits(a) && AllDigits(b);
      assert ',' !in b;
      GroupedCounts(a);
      var g := Grouped(a);
      assert multiset(g + [','] + b) == multiset(g) + multiset([',']) + multiset(b);
    }
  }

  // ---------------------------------------------------------------------------
  // formatNumber, getFontSize and the expression line

  /**
   * The display text of a value: "Error" as it is; otherwise a leading '-' is set
   * aside, text holding an 'e' is returned unchanged, and the rest is formatted by
   * `FormatPlain`.
   */
  function FormatNumber(num: string): string {
    if num == "Error" then num
    else if 'e' in Magnitude(num) then num
    else FormatPlain(num)
  }

  /** The leading '-' of a value, or nothing. */
  function Sign(num: string): string {
    if |num| > 0 && num[0] == '-' then "-" else ""
  }

  /** The value without its leading '-'. */
  function Magnitude(num: string): string {
    if |num| > 0 && num[0] == '-' then num[1..] else num
  }

  /**
   * The sign, the part of the magnitude before its first '.' grouped by thousands, and
   * '.' with the piece up to the next '.', if there is a first '.'.
   */
  function FormatPlain(num: string): string {
    var parts := Split(Magnitude(num), '.');
    var result := Sign(num) + GroupThousands(parts[0]);
    if |parts| >= 2 then result + ['.'] + parts[1] else result
  }

  lemma FormatNumberError()
    ensures FormatNumber("Error") == "Error"
  {
  }

  /** Text in exponential form is shown as it is. */
  lemma FormatNumberExponential(num: string)
    requires 'e' in Magnitude(num)
    ensures FormatNumber(num) == num
  {
  }

  /** A value is its sign followed by its magnitude. */
  lemma SignMagnitude(num: string)
    ensures num == Sign(num) + Magnitude(num)
  {
  }

  /** The plain format as sign, grouped integer part and the rest after a '.' when there was one. */
  lemma FormatPlainParts(num: string)
    ensures var parts := Split(Magnitude(num), '.');
      FormatPlain(num) == Sign(num) + GroupThousands(parts[0]) + (if |parts| >= 2 then ['.'] + parts[1] else [])
  {
    var parts := Split(Magnitude(num), '.');
    var head := Sign(num) + GroupThousands(parts[0]);
    if |parts| >= 2 {
      assert head + ['.'] + parts[1] == head + (['.'] + parts[1]);
    } else {
      assert head + [] == head;
    }
  }

  /** Deleting commas from sign + grouping + rest deletes the inserted ones only. */
  lemma ReassembleRemovesCommas(sign: string, intPart: string, rest: string)
    requires ',' !in sign && ',' !in intPart && ',' !in rest
    ensures Without(sign + GroupThousands(intPart) + rest, {','}) == sign + (intPart + rest)
  {
    var g := GroupThousands(intPart);
    calc {
      Without(sign + g + rest, {','});
      { WithoutConcat(sign + g, rest, {','}); }
      Without(sign + g, {','}) + Without(rest, {','});
      { WithoutConcat(sign, g, {','}); }
      Without(sign, {','}) + Without(g, {','}) + Without(rest, {','});
      { GroupThousandsRemovesToInput(intPart);
        WithoutAbsentChar(sign, ',');
        WithoutAbsentChar(intPart, ',');
        WithoutAbsentChar(rest, ','); }
      sign + intPart + rest;
      { ConcatAssociates(sign, intPart, rest); }
      sign + (intPart + rest);
    }
  }

  lemma ConcatAssociates(a: string, b: string, c: string)
    ensures a + b + c == a + (b + c)
  {
  }

  /**
   * For a value without commas and with at most one '.', deleting the commas from the
   * display text gives back the value.
   */
  lemma FormatNumberRemovesToInput(num: string)
    requires ',' !in num && multiset(num)['.'] <= 1
    ensures Without(FormatNumber(num), {','}) == num
  {
    if num == "Error" || 'e' in Magnitude(num) {
      WithoutAbsentChar(num, ',');
    } else {
      FormatPlainRemovesToInput(num);
    }
  }

  lemma FormatPlainRemovesToInput(num: string)
    requires ',' !in num && multiset(num)['.'] <= 1
    ensures Without(FormatPlain(num), {','}) == num
  {
    var absNum := Magnitude(num);
    var sign := Sign(num);
    var parts := Split(absNum, '.');
    var rest: string := if |parts| >= 2 then ['.'] + parts[1] else [];
    FormatPlainParts(num);
    SignMagnitude(num);
    MagnitudeCount(num, '.');
    MagnitudeCount(num, ',');
    MagnitudePieces(absNum);
    ReassembleRemovesCommas(sign, parts[0], rest);
  }

  /** Setting the sign aside removes no character other than '-'. */
  lemma MagnitudeCount(num: string, c: char)
    ensures multiset(Magnitude(num))[c] <= multiset(num)[c]
  {
    if |num| > 0 && num[0] == '-' {
      assert num == [num[0]] + num[1..];
    }
  }

  /** With at most one '.', the magnitude is its integer part followed by '.' and the fraction, if any. */
  lemma MagnitudePieces(absNum: string)
    requires ',' !in absNum && multiset(absNum)['.'] <= 1
    ensures var parts := Split(absNum, '.');
      var rest: string := if |parts| >= 2 then ['.'] + parts[1] else [];
      absNum == parts[0] + rest && ',' !in parts[0] && ',' !in rest
  {
    var parts := Split(absNum, '.');
    if |parts| >= 2 {
      SplitOnce(absNum, '.');
      assert absNum == parts[0] + (['.'] + parts[1]);
    } else {
      assert parts[0] == absNum;
    }
  }

  lemma WithoutAbsentChar(s: string, c: char)
    requires c !in s
    ensures Without(s, {c}) == s
  {
    WithoutAbsent(s, {c});
  }

  /** The display text starts with '-' exactly when the value does. */
  lemma FormatNumberSign(num: string)
    ensures var r := FormatNumber(num); (|r| > 0 && r[0] == '-') <==> (|num| > 0 && num[0] == '-')
  {
    if num != "Error" && 'e' !in Magnitude(num) {
      FormatPlainParts(num);
      GroupKeepsFirst(Split(Magnitude(num), '.')[0]);
    }
  }

  /** Grouping keeps the first character: no comma is put in front. */
  lemma GroupKeepsFirst(s: string)
    ensures GroupThousands(s) == [] <==> s == []
    ensures s != [] ==> GroupThousands(s)[0] == s[0]
  {
    if s != [] {
      assert !CommaBefore(s, 0);
    }
  }

  /** The digits after the '.' of a plain decimal are shown verbatim after the first '.'. */
  lemma FormatNumberFraction(num: string)
    requires num != "Error" && 'e' !in Magnitude(num) && '.' in Magnitude(num)
    ensures var r := FormatNumber(num);
      '.' in r && r[IndexOf(r, '.') + 1..] == Split(Magnitude(num), '.')[1]
  {
    var parts := Split(Magnitude(num), '.');
    FormatPlainParts(num);
    var head := Sign(num) + GroupThousands(parts[0]);
    GroupKeepsOtherChars(parts[0], '.');
    assert '.' !in head;
    var r := head + (['.'] + parts[1]);
    assert FormatNumber(num) == r;
    IndexOfPrefix(head, ['.'] + parts[1], '.');
  }

  /** Characters other than ',' survive grouping, so one absent from s is absent from its grouping. */
  lemma GroupKeepsOtherChars(s: string, c: char)
    requires c != ',' && c !in s
    ensures c !in GroupThousands(s)
  {
    GroupThousandsRemovesToInput(s);
    var g := GroupThousands(s);
    WithoutCounts(g, {','}, c);
    WithoutCounts(s, {','}, c);
  }

  const LargeText: string := "text-4xl sm:text-5xl"
  const MediumText: string := "text-3xl sm:text-4xl"
  const SmallText: string := "text-2xl sm:text-3xl"

  /** The font-size classes for a value of the given length. */
  function GetFontSize(length: int): (r: string)
    ensures r == LargeText <==> length <= 8
    ensures r == MediumText <==> 8 < length <= 12
    ensures r == SmallText <==> length > 12
  {
    if length <= 8 then LargeText
    else if length <= 12 then MediumText
    else SmallText
  }

  /** 0 for the smallest class, 2 for the largest. */
  function SizeRank(cls: string): nat {
    if cls == LargeText then 2 else if cls == MediumText then 1 else 0
  }

  /** A longer value never gets a larger font. */
  lemma FontSizeMonotone(a: int, b: int)
    requires a <= b
    ensures SizeRank(GetFontSize(b)) <= SizeRank(GetFontSize(a))
  {
  }

  /** The line above the value: the formatted previous value and the operation, when both are set. */
  function ExpressionText(previousValue: string, operation: Operation): (r: string)
    ensures r != [] <==> previousValue != [] && operation != NoOperation
    ensures r != [] ==> r == FormatNumber(previousValue) + " " + Symbol(operation)
  {
    if previousValue != [] && operation != NoOperation then
      FormatNumber(previousValue) + " " + Symbol(operation)
    else ""
  }
}
