/**
 * The calculator's record types: the pending operation, a history entry and the whole
 * state the hook keeps in its single state cell.
 */
module CalculatorTypes {

  /** The pending binary operation; `NoOperation` stands for the type's `null`. */
  datatype Operation = NoOperation | Plus | Minus | Times | Divide | Percent

  /**
   * The text of an operation as the state stores it: multiply is the letter 'x' and
   * divide is '÷'. Interpolating the `null` operation into a template gives "null".
   */
  function Symbol(op: Operation): (s: string)
    ensures op != NoOperation ==> |s| == 1 && s[0] != ' '
  {
    match op
    case NoOperation => "null"
    case Plus => "+"
    case Minus => "-"
    case Times => "x"
    case Divide => "÷"
    case Percent => "%"
  }

  /** Different operations are stored as different texts. */
  lemma SymbolsDistinct(a: Operation, b: Operation)
    ensures Symbol(a) == Symbol(b) ==> a == b
  {
  }

  /** One history entry; the creation time stamp is not part of the model. */
  datatype HistoryItem = HistoryItem(calculation: string, result: string)

  datatype CalculatorState = CalculatorState(
    currentValue: string,
    previousValue: string,
    operation: Operation,
    memory: string,
    waitingForOperand: bool,
    history: seq<HistoryItem>)

  /** The four memory keys MC, MR, M+ and M-. */
  datatype MemoryKey = MemoryClear | MemoryRecall | MemoryAdd | MemorySubtract
}
