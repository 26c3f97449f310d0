/**
 * The App component's state and its event handlers, updated in place. Each
 * handler is proved to perform exactly the matching transition of
 * CalculatorSpec (HandleNumber and NumberPressed, and so on), and so to keep that module's invariant.
 */
module CalculatorApp {
  import opened CalculatorSpec

  class App {
    var display: string
    var equation: string
    var justCalculated: bool
    var history: seq<HistoryItem>

    /** The four fields as one value. */
    function Snapshot(): State
      reads this
    {
      State(display, equation, justCalculated, history)
    }

    constructor ()
      ensures Snapshot() == Initial()
      ensures Invariant(Snapshot())
    {
      display := "0";
      equation := "";
      justCalculated := false;
      history := [];
    }

    method HandleNumber(num: Digit)
      modifies this
      ensures Snapshot() == NumberPressed(old(Snapshot()), num)
      ensures old(Invariant(Snapshot())) ==> Invariant(Snapshot())
    {
      if Invariant(Snapshot()) {
        NumberKeepsInvariant(Snapshot(), num);
      }
      if justCalculated {
        display := [num];
        equation := "";
        justCalculated := false;
      } else {
        display := if display == "0" then [num] else display + [num];
      }
    }

    method HandleDecimal()
      modifies this
      ensures Snapshot() == DecimalPressed(old(Snapshot()))
      ensures old(Invariant(Snapshot())) ==> Invariant(Snapshot())
    {
      if Invariant(Snapshot()) {
        DecimalKeepsInvariant(Snapshot());
      }
      if justCalculated {
        display := "0.";
        equation := "";
        justCalculated := false;
        return;
      }
      if '.' !in display {
        display := display + ".";
      }
    }

    method HandleOperator(op: Operator)
      modifies this
      ensures Snapshot() == OperatorPressed(old(Snapshot()), op)
      ensures old(Invariant(Snapshot())) ==> Invariant(Snapshot())
    {
      if Invariant(Snapshot()) {
        OperatorKeepsInvariant(Snapshot(), op);
      }
      if justCalculated {
        equation := display + " " + [op] + " ";
        justCalculated := false;
        display := "0";
      } else {
        equation := display + " " + [op] + " ";
        display := "0";
      }
    }

    method HandleDelete()
      modifies this
      ensures Snapshot() == DeletePressed(old(Snapshot()))
      ensures old(Invariant(Snapshot())) ==> Invariant(Snapshot())
    {
      if Invariant(Snapshot()) {
        DeleteKeepsInvariant(Snapshot());
      }
      if justCalculated {
        display := "0";
        equation := "";
        justCalculated := false;
        return;
      }
      if |display| == 1 {
        display := "0";
      } else {
        display := DropLast(display);
      }
    }

    method HandleClear()
      modifies this
      ensures Snapshot() == ClearPressed(old(Snapshot()))
      ensures old(Invariant(Snapshot())) ==> Invariant(Snapshot())
    {
      display := "0";
      equation := "";
      justCalculated := false;
    }

    /** handleEqual; `evaluate` stands for building and calling the expression and rounding its value. */
    method HandleEqual(evaluate: string -> Outcome)
      modifies this
      ensures Snapshot() == EqualPressed(old(Snapshot()), evaluate)
      ensures old(Invariant(Snapshot())) && ValidOutcome(evaluate(old(equation + display))) ==> Invariant(Snapshot())
    {
      if Invariant(Snapshot()) && ValidOutcome(evaluate(equation + display)) {
        EqualKeepsInvariant(Snapshot(), evaluate);
      }
      if equation == "" && display == "0" {
        return;
      }
      var fullExpression := equation + display;
      match evaluate(fullExpression)
      case Success(formatted) =>
        var item := HistoryItem(fullExpression, formatted);
        history := Record(history, item);
        display := formatted;
        equation := "";
        justCalculated := true;
      case Failure =>
        display := ErrorText;
        equation := "";
        justCalculated := true;
    }

    /** The history panel's Clear button. */
    method ClearHistory()
      modifies this
      ensures Snapshot() == HistoryCleared(old(Snapshot()))
      ensures old(Invariant(Snapshot())) ==> Invariant(Snapshot())
    {
      history := [];
    }

    /** A click on the history entry at `index`. */
    method RecallHistory(index: nat)
      requires index < |history|
      modifies this
      ensures Snapshot() == HistoryRecalled(old(Snapshot()), index)
      ensures old(Invariant(Snapshot())) ==> Invariant(Snapshot())
    {
      display := history[index].result;
    }
  }
}
