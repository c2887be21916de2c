# Calculator core in Dafny

This project models the logic of a React calculator. The `useCalculator` hook holds one
state record:

- the value on the display;
- the left operand and the pending operation;
- the memory register;
- the "waiting for an operand" flag;
- a history of at most ten calculations.

Eight handlers transform that record: digit, decimal point, operation, equals, AC, CE, ± and
the memory keys MC/MR/M+/M-. A keyboard table dispatches key presses into them. Around them
sit three pure helpers:

- `formatDisplayValue` cuts over-long values or switches them to exponential form;
- `performCalculation` applies a binary operation, with the sentinel "Error" for a
  division by zero;
- `addToHistory` puts the newest entry first and keeps ten.

The display component adds `formatNumber`, which puts thousands separators into the integer
part, the font-size rule and the expression line above the value. Choosing a history entry
runs AC and then the digit handler with the entry's result.

The modules are:

- `TextUtil`: the JavaScript string operations the code calls: `includes`, `split`, a
  global character-class `replace` by `''`, and `\d` tests. `IndexOf` and `Join` are the
  model's own tools: `includes` is stated through `IndexOf`, and `Join` undoes `split`.
- `JsNumber`: numbers as exact reals or NaN.
  - `parseFloat` covers white space, sign, digits, '.', exponent, and the longest valid
    prefix. The "Infinity" spellings are not recognised.
  - `String(number)` is concrete for NaN and for integers below 10^21. Other values are
    printed by a parameter `showReal`.
  - `toExponential(6)` is concrete on exact reals. It has an exponent, round-half-up and a
    carry into the next power of ten.
- `CalculatorTypes`: the operation symbols (multiply is the letter `x`), the history entry
  and the state record.
- `UseCalculator`: the transitions as pure functions on the record, the keyboard table, the
  invariant they keep, and a class `Calculator` with one `state` field. Its handler methods
  replace that field, as the hook's single state cell does.
- `Display`: `formatNumber` with its regular-expression grouping, `getFontSize` and the
  expression line.

Four behaviours of the code worth knowing:

- The text "Error" used as an operand reads as NaN. A calculation that continues from
  "Error" therefore prints "NaN" (`ErrorOperandGivesNaN`).
- AC restores the whole initial state, memory included. So 7, M+, AC, MR shows "0"
  (`ScenarioClearResetsMemory`).
- The history text writes multiply as the letter `x`, which is the stored operation symbol.
- On the truncation path `maxDecDigits` is `12 - |intPart| - 1`, where `intPart` includes a
  leading '-'. A non-negative decimal whose integer part has 1 to 11 digits therefore keeps
  11 digits (`TruncationKeepsElevenDigits`). With a leading '-' and an integer part of 1 to
  10 digits it keeps 10 digits. An integer part of 12 digits, or of 11 after a '-', keeps no
  fraction digit, so "123456789012.5" becomes "123456789012." and "-12345678901.23" becomes
  "-12345678901." (`TruncateDecimalParts` states the cut for every integer part).

Beside the history invariant `Valid`, which every action keeps, the state is `Consistent`
for the inputs the keys and the history list can produce (`WellFormedAction`) when `String`
behaves as JavaScript's does (`StringLike`). An operation is then pending exactly when a
left operand is stored, which the expression line relies on, and memory never holds "Error".

## Model

| member | source | states |
|---|---|---|
| CalculatorTypes.Symbol | src/types/calculator.ts:1 | every non-null operation is stored as a one-character symbol other than a space |
| CalculatorTypes.SymbolsDistinct | src/types/calculator.ts:1 | different operations are stored as different texts |
| TextUtil.Split | src/hooks/useCalculator.ts:32 | `split` gives at least one piece; the first piece is the text before the first separator; there are two or more pieces exactly when the separator occurs; no piece holds the separator |
| TextUtil.SplitAfter | src/hooks/useCalculator.ts:32 | text before the first separator is the first piece, and the rest splits on its own |
| TextUtil.JoinSplit | src/hooks/useCalculator.ts:32 | joining the pieces of a split with the separator gives back the text |
| TextUtil.WithoutCounts | src/hooks/useCalculator.ts:29 | `replace(/[...]/g, '')` leaves none of the deleted characters, and every other character as often as before |
| TextUtil.IndexOf | src/hooks/useCalculator.ts:30 | the index is below the length exactly when the character occurs (`includes`); it points at the first occurrence |
| JsNumber.ParseFloat | src/hooks/useCalculator.ts:23 | `parseFloat`; its contract is stated by ParseDigits, ParseDecimal, ParseMinus, ParseZero, ParseEmpty, ParseErrorSentinel and ParseIntegerToString below |
| JsNumber.ParseDigits | src/hooks/useCalculator.ts:23 | `parseFloat` of a run of digits is its exact decimal value |
| JsNumber.ParseDecimal | src/hooks/useCalculator.ts:23 | `parseFloat` of digits '.' digits is the integer part plus the fraction over 10^(fraction length) |
| JsNumber.ParseMinus | src/hooks/useCalculator.ts:191-193 | prefixing '-' to text that starts with a digit negates what it parses to |
| JsNumber.ParseZero | src/hooks/useCalculator.ts:44-45 | the text "0" parses to 0 |
| JsNumber.ParseEmpty | src/hooks/useCalculator.ts:44 | empty text parses to NaN, which is why empty operands are replaced by "0" |
| JsNumber.ParseErrorSentinel | src/hooks/useCalculator.ts:51 | the sentinel "Error" parses to NaN |
| JsNumber.ParseIntegerToString | src/hooks/useCalculator.ts:48-52 | the decimal text of an integer parses back to that integer |
| JsNumber.NumberToString | src/hooks/useCalculator.ts:49-53 | `String(number)`; NumberToStringInteger states it for integers, and UseCalculator.PrintedNumberLike that it never prints "Error" |
| JsNumber.NumberToStringInteger | src/hooks/useCalculator.ts:48-52 | `String` of an integer below 10^21 is its plain decimal text and parses back to the same number |
| JsNumber.ToExponential6 | src/hooks/useCalculator.ts:25 | `toExponential(6)`; stated by ToExponential6Shape, ToExponential6Close, ScientificNearest and ToExponential6Large |
| JsNumber.ScientificNearest | src/hooks/useCalculator.ts:25 | the seven digits chosen are the ones whose value is nearest to the number, ties going up: within half a unit of the seventh significant digit |
| JsNumber.ToExponential6Large | src/hooks/useCalculator.ts:23-26 | a number of magnitude at least 10^12 gets an exponent of at least 12, written with '+' |
| JsNumber.ToExponential6Shape | src/hooks/useCalculator.ts:25 | `toExponential(6)` gives an optional '-' (exactly when the value is negative), one digit, '.', six digits, 'e', a sign and exponent digits, with exactly one '.' |
| JsNumber.ToExponential6Close | src/hooks/useCalculator.ts:25 | the exponential text of a non-zero value parses to a number whose distance from the value is at most its magnitude / 2000000 |
| UseCalculator.FormatDisplayValue | src/hooks/useCalculator.ts:19-42 | `formatDisplayValue`; stated by FormatDisplayValueEmpty, FormatDisplayValueKeeps, FormatDisplayValueLarge, FormatDisplayValueTruncates, LongIntegerToExponential and FormatKeepsNumberLike |
| UseCalculator.FormatDisplayValueEmpty | src/hooks/useCalculator.ts:20 | empty text is formatted as "0" |
| UseCalculator.FormatDisplayValueKeeps | src/hooks/useCalculator.ts:19-42 | text of at most 12 digits (ignoring '-' and '.') whose value is below 10^12 in magnitude is kept unchanged |
| UseCalculator.FormatDisplayValueLarge | src/hooks/useCalculator.ts:23-26 | a value of magnitude 10^12 or more becomes its exponential text: well formed, with the value's sign, and reading back within 1/2000000 of the value |
| UseCalculator.LargeIsExponential | src/hooks/useCalculator.ts:23-26 | the large-magnitude check comes first, before any digit counting |
| UseCalculator.ExponentialOfLarge | src/hooks/useCalculator.ts:25 | the exponential text of a value of magnitude at least 10^12 is well formed and reads back close to it |
| UseCalculator.FormatDisplayValueTruncates | src/hooks/useCalculator.ts:29-34 | an over-long decimal below 10^12 is cut to a prefix of itself; it keeps its whole integer part and the '.', followed by at most max(0, 11 - length of integer part) characters |
| UseCalculator.TruncateDecimal | src/hooks/useCalculator.ts:32-34 | the cut has length integer part + 1 + min(max(0, 12 - integer part - 1), fraction length), and it is a prefix of the value |
| UseCalculator.TruncateKeepsIntegerPart | src/hooks/useCalculator.ts:34 | the cut starts with the integer part and its '.' |
| UseCalculator.TruncateDecimalParts | src/hooks/useCalculator.ts:32-34 | on digits '.' digits, the integer and fraction parts are the two runs, and the cut keeps min(max(0, 11 - integer length), fraction length) fraction digits |
| UseCalculator.TruncationKeepsElevenDigits | src/hooks/useCalculator.ts:29-34 | a decimal past 12 digits, with an integer part of 1 to 11 digits, keeps exactly 11 digits: the integer part and the first 11 - integer length fraction digits |
| UseCalculator.DecimalBelowLimit | src/hooks/useCalculator.ts:24 | digits '.' digits with an integer part of at most 12 digits is never large |
| UseCalculator.LongIntegerToExponential | src/hooks/useCalculator.ts:35-38 | a run of more than 12 digits becomes the exponential text of its value, whatever its magnitude, with no '-' |
| UseCalculator.LongWithoutPoint | src/hooks/useCalculator.ts:29-38 | too many digits and no '.' gives the exponential form |
| UseCalculator.DigitCountDigits | src/hooks/useCalculator.ts:29 | the digit count of a run of digits is its length |
| UseCalculator.DigitCountDecimal | src/hooks/useCalculator.ts:29 | the digit count of digits '.' digits is the number of digits on both sides |
| UseCalculator.PerformCalculation | src/hooks/useCalculator.ts:44-55 | `performCalculation`; stated by DivideByZero, PercentOfValue, EmptyOperandIsZero, NoOperationKeepsRight, IntegerArithmeticExact and ErrorOperandGivesNaN |
| UseCalculator.OperandReadsOrZero | src/hooks/useCalculator.ts:44-45 | reading an operand is `parseFloat` of the text, or of "0" when the text is empty |
| UseCalculator.DivideByZero | src/hooks/useCalculator.ts:51 | division gives "Error" if and only if the right operand reads as 0 |
| UseCalculator.DivideByZeroNumbers | src/hooks/useCalculator.ts:51 | on numbers: "Error" exactly for a zero divisor |
| UseCalculator.IntegerTextIsNotError | src/hooks/useCalculator.ts:51 | no printed integer is the sentinel "Error" |
| UseCalculator.PercentOfValue | src/hooks/useCalculator.ts:52 | percent prints a * (b / 100), not a remainder |
| UseCalculator.PercentOfNumbers | src/hooks/useCalculator.ts:52 | on numbers: percent is a * (b / 100) |
| UseCalculator.EmptyOperandIsZero | src/hooks/useCalculator.ts:44-45 | an empty operand on either side gives the same result as the text "0" |
| UseCalculator.NoOperationKeepsRight | src/hooks/useCalculator.ts:53 | with no operation the right operand text comes back unchanged |
| UseCalculator.IntegerArithmeticExact | src/hooks/useCalculator.ts:43-55 | on integer texts whose exact result is an integer below 10^21, every operation carried out on exact reals prints that integer's text (sum, difference, product, exact quotient, exact percentage) |
| UseCalculator.ArithmeticOnIntegers | src/hooks/useCalculator.ts:47-52 | each operation on integer operands yields the exact integer result |
| UseCalculator.ErrorOperandGivesNaN | src/hooks/useCalculator.ts:44-52 | a calculation whose left operand is "Error" prints "NaN" |
| UseCalculator.AddToHistory | src/hooks/useCalculator.ts:58-66 | the new entry is first, followed by the old entries in order; the length is min(old + 1, 10) |
| UseCalculator.HistoryKeepsNewest | src/hooks/useCalculator.ts:58-66 | recording items one by one keeps the ten newest entries, newest first, followed by the old ones |
| UseCalculator.CalculationSplits | src/hooks/useCalculator.ts:130 | when neither operand holds a space, the entry text splits on ' ' into the left operand, the operation symbol and the right operand |
| UseCalculator.CalculationIdentifies | src/hooks/useCalculator.ts:130 | so two entries with the same text have the same operands and the same operation |
| UseCalculator.Record | src/hooks/useCalculator.ts:132-134 | an "Error" result leaves the history as it is; any other result adds an entry |
| UseCalculator.DigitInput | src/hooks/useCalculator.ts:68-99 | while waiting, the value becomes the key text and the flag clears; "0" on "0" gives the identical state; on "0" any text but "." replaces it; otherwise, "." on "0" included, the value is the formatted concatenation; no other field changes |
| UseCalculator.DecimalPoint | src/hooks/useCalculator.ts:101-123 | while waiting, the value becomes "0."; a value with a '.' is left alone; otherwise one '.' is appended; the flag ends cleared; no other field changes |
| UseCalculator.DecimalPointCount | src/hooks/useCalculator.ts:101-123 | the number of '.' afterwards is 1 when waiting, else the larger of 1 and the count before, so at most one stays at most one |
| UseCalculator.OperationInput | src/hooks/useCalculator.ts:125-152 | with a pending operation and an entered operand, the result becomes both values and is recorded; otherwise the value becomes the left operand; either way the new operation is pending, the flag is set and memory is unchanged |
| UseCalculator.Equals | src/hooks/useCalculator.ts:154-173 | with no operation the state is identical; otherwise the value is the result, the left operand is "", the operation is null, the flag is set, the result is recorded and memory is unchanged |
| UseCalculator.EqualsDivideByZero | src/hooks/useCalculator.ts:154-173 | '=' on a division by a zero operand shows "Error", records nothing and clears the operation |
| UseCalculator.Clear | src/hooks/useCalculator.ts:175-177 | AC gives exactly the initial state |
| UseCalculator.ClearEntry | src/hooks/useCalculator.ts:179-185 | CE sets the value to "0" and clears the flag; nothing else changes |
| UseCalculator.Negate | src/hooks/useCalculator.ts:187-200 | ± changes only the value, to its sign-toggled text; "0" is left as it is |
| UseCalculator.NegateValue | src/hooks/useCalculator.ts:191-193 | the sign toggle; stated by NegateTwice, NegateNegatesValue and NegateKeepsNumberLike |
| UseCalculator.NegateTwice | src/hooks/useCalculator.ts:187-200 | toggling twice gives the value back if and only if it is neither "-0" nor starts with "--" |
| UseCalculator.NegateNegatesValue | src/hooks/useCalculator.ts:191-193 | on text starting with a digit (or '-' and a digit), the toggled text parses to the negated number |
| UseCalculator.MemoryOperation | src/hooks/useCalculator.ts:202-230 | MR copies memory into the value and clears the flag; MC, M+ and M- change only memory, to "0", String(memory + value) and String(memory - value) |
| UseCalculator.MemoryAddSubtract | src/hooks/useCalculator.ts:216-225 | with integer memory, value and sum within ±2^53 (where binary64 addition and subtraction are exact), M+ stores the exact sum, and M+ then M- restores the state |
| UseCalculator.Apply | src/hooks/useCalculator.ts:234-263 | one button or key press dispatched to its handler; stated by ApplyKeepsValid and ApplyKeepsConsistent |
| UseCalculator.Run | src/hooks/useCalculator.ts:234-263 | a sequence of presses, first to last; stated by RunKeepsValid, RunKeepsConsistent and ChainEvaluatesLeftToRight |
| UseCalculator.KeyAction | src/hooks/useCalculator.ts:246-262 | any key name containing a digit is typed whole; no key reaches ± or the memory keys; every operation key maps to a non-null operation |
| UseCalculator.HandledKeysPreventDefault | src/hooks/useCalculator.ts:236-243 | every key the table acts on is one whose default action is suppressed |
| UseCalculator.ScenarioFunctionKey | src/hooks/useCalculator.ts:246-248 | the key "F5" is typed onto the display as "F5" |
| UseCalculator.Valid | src/hooks/useCalculator.ts:58-66 | at most ten history entries, none with the result "Error"; kept by ApplyKeepsValid |
| UseCalculator.InitialValid | src/hooks/useCalculator.ts:7-14 | the initial state has at most ten entries and no "Error" entry |
| UseCalculator.ApplyKeepsValid | src/hooks/useCalculator.ts:68-230 | every handler keeps the history at most ten entries long, with no "Error" result |
| UseCalculator.RunKeepsValid | src/hooks/useCalculator.ts:68-230 | so does every sequence of key presses |
| UseCalculator.InitialConsistent | src/hooks/useCalculator.ts:7-14 | the initial state has no operation and no left operand, and "0" as value and memory |
| UseCalculator.IntegerTextNumberLike | src/hooks/useCalculator.ts:49-53 | the text of an integer is NumberLike: not empty, and a leading '-' is followed by a digit |
| UseCalculator.PrintedNumberLike | src/hooks/useCalculator.ts:49-53 | every number `String` prints is NumberLike and never "Error" |
| UseCalculator.EvaluateNumberLike | src/hooks/useCalculator.ts:48-53 | a pending calculation's result is NumberLike, whether a number or "Error" |
| UseCalculator.AppendNumberLike | src/hooks/useCalculator.ts:93 | appending to NumberLike text keeps it NumberLike |
| UseCalculator.ExponentialNumberLike | src/hooks/useCalculator.ts:25 | exponential text and "NaN" are NumberLike |
| UseCalculator.TruncateNumberLike | src/hooks/useCalculator.ts:32-34 | cutting the fraction keeps NumberLike text NumberLike |
| UseCalculator.FormatKeepsNumberLike | src/hooks/useCalculator.ts:19-42 | formatting keeps NumberLike text NumberLike, so it never empties the display |
| UseCalculator.NegateKeepsNumberLike | src/hooks/useCalculator.ts:191-193 | ± keeps NumberLike text NumberLike, so it never empties the display |
| UseCalculator.DigitInputConsistent | src/hooks/useCalculator.ts:68-99 | a NumberLike key text keeps the state consistent |
| UseCalculator.RecordKeepsNumberLike | src/hooks/useCalculator.ts:58-66 | recording a NumberLike result keeps every recorded result NumberLike |
| UseCalculator.CalculateConsistent | src/hooks/useCalculator.ts:129-134 | a pending calculation's result and the history it leaves are NumberLike |
| UseCalculator.ApplyKeepsConsistent | src/hooks/useCalculator.ts:68-230 | every well-formed action keeps the state consistent: an operation is pending exactly when a left operand is stored, the value and memory are NumberLike, memory is never "Error" |
| UseCalculator.RunKeepsConsistent | src/hooks/useCalculator.ts:68-230 | so does every sequence of well-formed actions |
| UseCalculator.KeyActionWellFormed | src/hooks/useCalculator.ts:246-262 | every key whose name, if it holds a digit, is NumberLike maps to a well-formed action |
| UseCalculator.HistorySelectionWellFormed | src/components/Calculator.tsx:52-55 | in a consistent state, choosing any recorded entry types a well-formed action |
| UseCalculator.ExpressionLineWhilePending | src/components/Display.tsx:55-57 | in a consistent state the expression line is shown exactly while an operation is pending |
| UseCalculator.TypingBuildsNumber | src/hooks/useCalculator.ts:68-99 | from a fresh entry, typing 1 to 12 digits (the first not '0') shows exactly those digits; only the value and the flag change |
| UseCalculator.AppendDigitKeeps | src/hooks/useCalculator.ts:93-96 | a run of at most 12 digits is kept as typed |
| UseCalculator.ThirteenthDigit | src/hooks/useCalculator.ts:93-96 | the 13th typed digit switches the value to the exponential text of the 13-digit number |
| UseCalculator.ChainEvaluatesLeftToRight | src/hooks/useCalculator.ts:125-173 | a op1 b op2 c = gives (a op1 b) op2 c; both calculations are recorded, newest first, except "Error" results |
| UseCalculator.ScenarioClearResetsMemory | src/hooks/useCalculator.ts:175-177 | 7, M+, AC, MR shows "0" |
| UseCalculator.SelectHistoryEntry | src/components/Calculator.tsx:52-55 | AC then the digit handler on an entry's result gives the initial state showing that result ("." shows "0.") |
| UseCalculator.ZeroPointKept | src/hooks/useCalculator.ts:93-96 | "0." is kept as typed |
| UseCalculator.Calculator.constructor | src/hooks/useCalculator.ts:7-16 | the state cell starts as the initial state |
| UseCalculator.Calculator.HandleDigitInput | src/hooks/useCalculator.ts:68-99 | the state becomes DigitInput of the old state |
| UseCalculator.Calculator.HandleDecimalPoint | src/hooks/useCalculator.ts:101-123 | the state becomes DecimalPoint of the old state |
| UseCalculator.Calculator.HandleOperationInput | src/hooks/useCalculator.ts:125-152 | the state becomes OperationInput of the old state |
| UseCalculator.Calculator.HandleEquals | src/hooks/useCalculator.ts:154-173 | the state becomes Equals of the old state |
| UseCalculator.Calculator.HandleClear | src/hooks/useCalculator.ts:175-177 | the state becomes the initial state |
| UseCalculator.Calculator.HandleClearEntry | src/hooks/useCalculator.ts:179-185 | the state becomes ClearEntry of the old state |
| UseCalculator.Calculator.HandleNegate | src/hooks/useCalculator.ts:187-200 | the state becomes Negate of the old state |
| UseCalculator.Calculator.HandleMemoryOperation | src/hooks/useCalculator.ts:202-230 | the state becomes MemoryOperation of the old state |
| UseCalculator.Calculator.HandleKeyDown | src/hooks/useCalculator.ts:234-263 | a key outside the table changes nothing; any other key applies its table action; the history invariant is kept, and so is consistency for a NumberLike key name |
| UseCalculator.Calculator.SelectHistoryItem | src/components/Calculator.tsx:52-55 | the state becomes the initial state showing the chosen result |
| Display.GroupThousands | src/components/Display.tsx:38 | the regular-expression grouping; stated by GroupThousandsDigits, GroupThousandsRemovesToInput, GroupedCounts, GroupKeepsFirst and GroupKeepsOtherChars |
| Display.GroupThousandsRemovesToInput | src/components/Display.tsx:38 | grouping only inserts commas: deleting every ',' from the grouped text gives the text without its commas |
| Display.GroupFromRemovesToInput | src/components/Display.tsx:38 | the same for every suffix the grouping scans |
| Display.CommaBeforeDigits | src/components/Display.tsx:38 | in a run of digits, a comma goes before position i exactly when i > 0 and a multiple of three digits follows |
| Display.GroupFromShortTail | src/components/Display.tsx:38 | the last one or two digits get no comma |
| Display.GroupFromAppend | src/components/Display.tsx:38 | appending three digits appends a comma and those digits to the grouping |
| Display.GroupThousandsShort | src/components/Display.tsx:38 | at most three digits get no comma |
| Display.GroupThousandsDigits | src/components/Display.tsx:38 | on a run of digits the regular expression agrees with grouping by threes from the right, with a first group of one to three digits |
| Display.GroupedCounts | src/components/Display.tsx:38 | grouping n digits adds (n - 1) / 3 characters, all of them commas |
| Display.GroupKeepsFirst | src/components/Display.tsx:38 | no comma goes in front: the grouping is empty only for empty text and starts with the same character |
| Display.GroupKeepsOtherChars | src/components/Display.tsx:38 | a character other than ',' that is absent before grouping is absent after it |
| Display.FormatNumberError | src/components/Display.tsx:23 | "Error" is shown as it is |
| Display.FormatNumberExponential | src/components/Display.tsx:26-32 | text whose unsigned part holds 'e' is shown as it is |
| Display.SignMagnitude | src/components/Display.tsx:26-27 | the value is its sign followed by its unsigned part |
| Display.FormatNumber | src/components/Display.tsx:22-45 | `formatNumber`; stated by FormatNumberError, FormatNumberExponential, FormatNumberRemovesToInput, FormatNumberSign and FormatNumberFraction |
| Display.FormatPlain | src/components/Display.tsx:34-44 | the plain branch; stated by FormatPlainRemovesToInput |
| Display.FormatNumberRemovesToInput | src/components/Display.tsx:22-45 | for comma-free input with at most one '.', deleting the commas from the output gives back the input |
| Display.FormatPlainRemovesToInput | src/components/Display.tsx:35-44 | the same for the plain path |
| Display.ReassembleRemovesCommas | src/components/Display.tsx:41-44 | reassembling sign, grouped part and rest removes only the inserted commas |
| Display.MagnitudePieces | src/components/Display.tsx:35 | with at most one '.', the unsigned part is its integer piece, then '.' and the fraction piece when there is one |
| Display.FormatNumberSign | src/components/Display.tsx:26-41 | the shown text starts with '-' exactly when the value does |
| Display.FormatNumberFraction | src/components/Display.tsx:35-44 | the text after the first '.' of the shown value is the fraction piece, verbatim |
| Display.GetFontSize | src/components/Display.tsx:48-52 | the largest class exactly for length at most 8; the middle class for 9 to 12; the smallest above 12 |
| Display.FontSizeMonotone | src/components/Display.tsx:48-52 | a longer value never gets a larger font |
| Display.ExpressionText | src/components/Display.tsx:55-57 | empty unless both the previous value and the operation are set; then the formatted previous value, a space and the operation symbol |

## Left out

- Floating point. Values are exact reals or NaN, so IEEE rounding in `+ - * /`, overflow to Infinity and -0 are not modelled.
- ParseFloat: the spellings "Infinity", "+Infinity" and "-Infinity", which JavaScript reads as ±Infinity, read as NaN, because the model has no infinite values.
- IntegerArithmeticExact: holds on exact reals only. With doubles, "100" % "7" computes 100 * (7 / 100) and prints "7.000000000000001", and integer results above 2^53 round.
- `String(number)` for non-integers and for integers of 10^21 or more. It is the parameter `showReal`, whose digits the model does not fix.
- `toExponential(6)` is computed on the exact value, so a double's own rounding before printing is not captured.
- The history entry's `timestamp: new Date()` reads the clock and is dropped.
- React machinery. Each handler is one atomic transition: the `setState` updater and the second update that `addToHistory` enqueues are merged. A possible double invocation of updaters is not modelled.
- Keyboard listener registration and removal, and `e.preventDefault()`, are DOM side effects. Which keys are suppressed is stated as the predicate `PreventsDefault`.
- The UI components and their styling are not part of this model: Keypad, Button, HistoryPanel, ThemeToggle, App, the layout of Calculator and the animations.
- The memory indicator `state.memory !== '0'` is the function `HasMemory` and carries no lemma.
- DivideByZero: the "only if" direction assumes `showReal` never prints "Error". This holds for JavaScript's `String`, but the model leaves `String` open.
- NegateNegatesValue: only states the parse relation for text that starts with a digit, or with '-' and a digit. Other text, such as "Error" or ".5", is covered only by `Negate` and `NegateTwice`.
