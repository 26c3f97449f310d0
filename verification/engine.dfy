/**
 * The calculator's input state machine as values: the four pieces of state
 * that the App component keeps (display, equation, justCalculated, history),
 * one transition per event handler, and the properties the handlers keep.
 *
 * The evaluation of the finished expression is not modelled: every transition
 * that needs it takes an oracle `evaluate` that either yields the result text
 * or reports that evaluation threw.
 */
module CalculatorSpec {

  /** A key on the digit pad. */
  type Digit = c: char | '0' <= c <= '9' witness '0'

  /** The operator tokens the keypad and the keyboard pass to handleOperator. */
  predicate IsOperator(c: char) {
    c == '+' || c == '-' || c == '*' || c == '/' || c == '%'
  }

  type Operator = c: char | IsOperator(c) witness '+'

  /** One line of the history panel. */
  datatype HistoryItem = HistoryItem(calculation: string, result: string)

  /** What the evaluator does with an expression: produce the formatted result, or throw. */
  datatype Outcome = Success(text: string) | Failure

  /** The component's state: current operand, pending "operand op " fragment, post-result flag, history (newest first). */
  datatype State = State(display: string, equation: string, justCalculated: bool, history: seq<HistoryItem>)

  /** The history keeps at most this many entries. */
  const MaxHistory: nat := 20

  /** The state the component starts in. */
  function Initial(): State {
    State("0", "", false, [])
  }

  /** Text shown after a thrown evaluation. */
  const ErrorText: string := "Error"

  // ---------------------------------------------------------------------------
  // Text helpers

  /** Number of decimal points in `s`. */
  function Dots(s: string): nat {
    if s == [] then 0 else (if s[0] == '.' then 1 else 0) + Dots(s[1..])
  }

  lemma {:induction false} DotsAppend(s: string, t: string)
    ensures Dots(s + t) == Dots(s) + Dots(t)
  {
    if s != [] {
      assert (s + t)[1..] == s[1..] + t;
      DotsAppend(s[1..], t);
    } else {
      assert s + t == t;
    }
  }

  lemma {:induction false} NoDotsIffAbsent(s: string)
    ensures Dots(s) == 0 <==> '.' !in s
  {
    if s != [] {
      NoDotsIffAbsent(s[1..]);
      assert s == [s[0]] + s[1..];
    }
  }

  /** The pending fragment that handleOperator builds: the operand, a space, the operator, a space. */
  function Pending(operand: string, op: Operator): (e: string)
    ensures |e| == |operand| + 3
    ensures e[..|operand|] == operand && e[|e| - 2] == op
  {
    operand + [' ', op, ' ']
  }

  /** `e` is empty or of the form operand + " " + op + " " with a non-empty operand. */
  predicate PendingShape(e: string) {
    e == [] || (|e| >= 4 && IsOperator(e[|e| - 2]) && e == Pending(e[..|e| - 3], e[|e| - 2]))
  }

  /** A text the display may hold: non-empty, at most one decimal point. */
  predicate DisplayText(d: string) {
    d != [] && Dots(d) <= 1
  }

  /** The evaluator only produces texts the display may hold (JavaScript's number-to-string never gives "" or two points). */
  predicate ValidOutcome(o: Outcome) {
    o.Success? ==> DisplayText(o.text)
  }

  ghost predicate WellBehaved(evaluate: string -> Outcome) {
    forall e :: ValidOutcome(evaluate(e))
  }

  /** The invariant every transition keeps. */
  predicate Invariant(s: State) {
    && DisplayText(s.display)
    && PendingShape(s.equation)
    && |s.history| <= MaxHistory
    && forall i :: 0 <= i < |s.history| ==> DisplayText(s.history[i].result)
  }

  // ---------------------------------------------------------------------------
  // History update: prepend, then keep the first MaxHistory entries

  function Take<T>(s: seq<T>, n: nat): (r: seq<T>)
    ensures |r| == if |s| <= n then |s| else n
    ensures r == s[..|r|]
  {
    if |s| <= n then s else s[..n]
  }

  /** [item, ...history].slice(0, 20) */
  function Record(history: seq<HistoryItem>, item: HistoryItem): (r: seq<HistoryItem>)
    ensures |r| <= MaxHistory
    ensures |r| == if |history| < MaxHistory then |history| + 1 else MaxHistory
    ensures r[0] == item
    ensures r[1..] == history[..|r| - 1]
  {
    Take([item] + history, MaxHistory)
  }

  // ---------------------------------------------------------------------------
  // The transitions, one per handler

  /** handleNumber */
  function NumberPressed(s: State, d: Digit): (t: State)
    ensures t.history == s.history && !t.justCalculated
    ensures t.display != [] && t.display[|t.display| - 1] == d
    ensures s.justCalculated ==> t.display == [d] && t.equation == []
    ensures !s.justCalculated ==> t.equation == s.equation
    ensures !s.justCalculated && s.display == "0" ==> t.display == [d]
    ensures !s.justCalculated && s.display != "0" ==> t.display == s.display + [d]
  {
    if s.justCalculated then
      State([d], "", false, s.history)
    else
      s.(display := if s.display == "0" then [d] else s.display + [d])
  }

  /** handleDecimal */
  function DecimalPressed(s: State): (t: State)
    ensures t.history == s.history && !t.justCalculated
    ensures '.' in t.display
    ensures !s.justCalculated && '.' in s.display ==> t == s
    ensures !s.justCalculated ==> t.equation == s.equation && s.display <= t.display
    ensures !s.justCalculated && '.' !in s.display ==> t.display == s.display + "."
    ensures s.justCalculated ==> t.display == "0." && t.equation == []
  {
    if s.justCalculated then
      State("0.", "", false, s.history)
    else if '.' !in s.display then
      var t := s.(display := s.display + ".");
      assert t.display[|s.display|] == '.';
      t
    else
      s
  }

  /** handleOperator */
  function OperatorPressed(s: State, op: Operator): (t: State)
    ensures t.history == s.history && !t.justCalculated && t.display == "0"
    ensures |t.equation| == |s.display| + 3 && s.display <= t.equation && t.equation[|s.display| + 1] == op
    ensures s.display != [] ==> PendingShape(t.equation)
  {
    State("0", Pending(s.display, op), false, s.history)
  }

  /** JavaScript's display.slice(0, -1): the text without its last character ("" stays ""). */
  function DropLast(d: string): (r: string)
    ensures d != [] ==> r + [d[|d| - 1]] == d
  {
    if d == [] then [] else d[..|d| - 1]
  }

  /** handleDelete */
  function DeletePressed(s: State): (t: State)
    ensures t.history == s.history && !t.justCalculated
    ensures s.justCalculated ==> t == Initial().(history := s.history)
    ensures !s.justCalculated ==> t.equation == s.equation
    ensures !s.justCalculated && |s.display| == 1 ==> t.display == "0"
    ensures !s.justCalculated && |s.display| > 1 ==> t.display + [s.display[|s.display| - 1]] == s.display
  {
    if s.justCalculated then
      State("0", "", false, s.history)
    else if |s.display| == 1 then
      s.(display := "0")
    else
      s.(display := DropLast(s.display))
  }

  /** handleClear */
  function ClearPressed(s: State): (t: State)
    ensures t == Initial().(history := s.history)
  {
    State("0", "", false, s.history)
  }

  /** The expression handleEqual hands to the evaluator. */
  function Expression(s: State): string {
    s.equation + s.display
  }

  /** handleEqual, around the evaluator `evaluate`. */
  function EqualPressed(s: State, evaluate: string -> Outcome): (t: State)
    ensures s.equation == [] && s.display == "0" ==> t == s
    ensures !(s.equation == [] && s.display == "0") ==> t.equation == [] && t.justCalculated
    ensures !(s.equation == [] && s.display == "0") && evaluate(Expression(s)).Success? ==>
      t.display == evaluate(Expression(s)).text &&
      t.history == Record(s.history, HistoryItem(Expression(s), t.display))
    ensures !(s.equation == [] && s.display == "0") && evaluate(Expression(s)).Failure? ==>
      t.display == ErrorText && t.history == s.history
  {
    if s.equation == "" && s.display == "0" then
      s
    else
      var expr := Expression(s);
      match evaluate(expr)
      case Success(r) => State(r, "", true, Record(s.history, HistoryItem(expr, r)))
      case Failure => State(ErrorText, "", true, s.history)
  }

  /** The history panel's Clear button. */
  function HistoryCleared(s: State): (t: State)
    ensures t.history == [] && t.(history := s.history) == s
  {
    s.(history := [])
  }

  /** Clicking the history entry at `i`. */
  function HistoryRecalled(s: State, i: nat): (t: State)
    requires i < |s.history|
    ensures t.display == s.history[i].result && t.(display := s.display) == s
  {
    s.(display := s.history[i].result)
  }

  // ---------------------------------------------------------------------------
  // Sessions: a sequence of user actions

  datatype Action =
    | PressDigit(d: Digit)
    | PressDecimal
    | PressOperator(op: Operator)
    | PressEqual
    | PressDelete
    | PressClear
    | PressClearHistory
    | PressHistoryItem(index: nat)

  /**
   * One user action. Only existing history entries are rendered, so a click on
   * an index past the end cannot happen; it is taken to change nothing.
   */
  function Step(s: State, a: Action, evaluate: string -> Outcome): State {
    match a
    case PressDigit(d) => NumberPressed(s, d)
    case PressDecimal => DecimalPressed(s)
    case PressOperator(op) => OperatorPressed(s, op)
    case PressEqual => EqualPressed(s, evaluate)
    case PressDelete => DeletePressed(s)
    case PressClear => ClearPressed(s)
    case PressClearHistory => HistoryCleared(s)
    case PressHistoryItem(i) => if i < |s.history| then HistoryRecalled(s, i) else s
  }

  /** The state after the actions `acts`, taken one at a time from `s`. */
  function Run(s: State, acts: seq<Action>, evaluate: string -> Outcome): State
    decreases |acts|
  {
    if acts == [] then s
    else Step(Run(s, acts[..|acts| - 1], evaluate), acts[|acts| - 1], evaluate)
  }

  lemma RunSnoc(s: State, acts: seq<Action>, a: Action, evaluate: string -> Outcome)
    ensures Run(s, acts + [a], evaluate) == Step(Run(s, acts, evaluate), a, evaluate)
  {
  }

  // ---------------------------------------------------------------------------
  // The invariant is kept by every transition

  lemma NumberKeepsInvariant(s: State, d: Digit)
    requires Invariant(s)
    ensures Invariant(NumberPressed(s, d))
  {
    if !s.justCalculated && s.display != "0" {
      DotsAppend(s.display, [d]);
    }
  }

  lemma DecimalKeepsInvariant(s: State)
    requires Invariant(s)
    ensures Invariant(DecimalPressed(s))
  {
    if !s.justCalculated && '.' !in s.display {
      NoDotsIffAbsent(s.display);
      DotsAppend(s.display, ".");
    }
  }

  lemma OperatorKeepsInvariant(s: State, op: Operator)
    requires Invariant(s)
    ensures Invariant(OperatorPressed(s, op))
  {
  }

  lemma DeleteKeepsInvariant(s: State)
    requires Invariant(s)
    ensures Invariant(DeletePressed(s))
  {
    if !s.justCalculated && |s.display| > 1 {
      var d := s.display;
      DotsAppend(DropLast(d), [d[|d| - 1]]);
    }
  }

  lemma EqualKeepsInvariant(s: State, evaluate: string -> Outcome)
    requires Invariant(s)
    requires ValidOutcome(evaluate(Expression(s)))
    ensures Invariant(EqualPressed(s, evaluate))
  {
  }

  lemma StepKeepsInvariant(s: State, a: Action, evaluate: string -> Outcome)
    requires Invariant(s)
    requires WellBehaved(evaluate)
    ensures Invariant(Step(s, a, evaluate))
  {
    match a
    case PressDigit(d) => NumberKeepsInvariant(s, d);
    case PressDecimal => DecimalKeepsInvariant(s);
    case PressOperator(op) => OperatorKeepsInvariant(s, op);
    case PressEqual => EqualKeepsInvariant(s, evaluate);
    case PressDelete => DeleteKeepsInvariant(s);
    case PressClear =>
    case PressClearHistory =>
    case PressHistoryItem(i) =>
  }

  /** Every session that starts from a state satisfying the invariant keeps it: the display is never empty, and so on. */
  lemma {:induction false} RunKeepsInvariant(s: State, acts: seq<Action>, evaluate: string -> Outcome)
    requires Invariant(s)
    requires WellBehaved(evaluate)
    ensures Invariant(Run(s, acts, evaluate))
    decreases |acts|
  {
    if acts != [] {
      RunKeepsInvariant(s, acts[..|acts| - 1], evaluate);
      StepKeepsInvariant(Run(s, acts[..|acts| - 1], evaluate), acts[|acts| - 1], evaluate);
    }
  }

  lemma InitialSatisfiesInvariant()
    ensures Invariant(Initial())
  {
  }

  // ---------------------------------------------------------------------------
  // Properties of single transitions

  /** A second decimal point changes nothing: handleDecimal is idempotent and leaves exactly one point. */
  lemma DecimalIdempotent(s: State)
    requires Dots(s.display) <= 1
    ensures DecimalPressed(DecimalPressed(s)) == DecimalPressed(s)
    ensures Dots(DecimalPressed(s).display) == 1
  {
    var t := DecimalPressed(s);
    if s.justCalculated {
      assert t.display == "0.";
      assert Dots("0.") == 1 by { assert "0."[1..] == "."; assert "."[1..] == ""; }
    } else if '.' !in s.display {
      NoDotsIffAbsent(s.display);
      DotsAppend(s.display, ".");
      assert Dots(".") == 1 by { assert "."[1..] == ""; }
    } else {
      NoDotsIffAbsent(s.display);
    }
  }

  /** handleOperator keeps only the current operand: whatever was pending before is discarded. */
  lemma OperatorOverwrites(s: State, e: string, op: Operator)
    ensures OperatorPressed(s.(equation := e), op) == OperatorPressed(s, op)
    ensures OperatorPressed(s, op).equation == s.display + " " + [op] + " "
  {
  }

  /** handleClear is idempotent and forgets everything but the history. */
  lemma ClearIdempotent(s: State)
    ensures ClearPressed(ClearPressed(s)) == ClearPressed(s)
    ensures ClearPressed(s).history == s.history
  {
  }

  /** handleEqual with nothing entered changes no field. */
  lemma EqualNothingEntered(evaluate: string -> Outcome, history: seq<HistoryItem>, flag: bool)
    ensures EqualPressed(State("0", "", flag, history), evaluate) == State("0", "", flag, history)
  {
  }

  /** A successful evaluation puts the exact expression and its result at the head of the history, keeps at most 20 entries, and keeps the older ones in order. */
  lemma EqualRecords(s: State, evaluate: string -> Outcome)
    requires !(s.equation == [] && s.display == "0")
    requires evaluate(s.equation + s.display).Success?
    ensures var t := EqualPressed(s, evaluate);
      && t.history[0] == HistoryItem(s.equation + s.display, t.display)
      && |t.history| <= MaxHistory
      && t.history[1..] <= s.history
  {
  }

  // ---------------------------------------------------------------------------
  // History over many evaluations

  function Reverse<T>(s: seq<T>): (r: seq<T>)
    ensures |r| == |s|
    ensures forall k :: 0 <= k < |s| ==> r[k] == s[|s| - 1 - k]
  {
    if s == [] then [] else Reverse(s[1..]) + [s[0]]
  }

  /** Record each of `items`, oldest first. */
  function RecordAll(history: seq<HistoryItem>, items: seq<HistoryItem>): seq<HistoryItem>
    decreases |items|
  {
    if items == [] then history
    else Record(RecordAll(history, items[..|items| - 1]), items[|items| - 1])
  }

  /** After recording `items` the history holds the newest 20 of them and of the earlier history, newest first. */
  lemma {:induction false} RecordAllNewestFirst(history: seq<HistoryItem>, items: seq<HistoryItem>)
    requires |history| <= MaxHistory
    ensures RecordAll(history, items) == Take(Reverse(items) + history, MaxHistory)
    decreases |items|
  {
    if items != [] {
      var init, last := items[..|items| - 1], items[|items| - 1];
      RecordAllNewestFirst(history, init);
      assert items == init + [last];
      ReverseSnoc(init, last);
      calc {
        RecordAll(history, items);
        Record(Take(Reverse(init) + history, MaxHistory), last);
        Take([last] + Take(Reverse(init) + history, MaxHistory), MaxHistory);
        Take([last] + (Reverse(init) + history), MaxHistory);
        { assert [last] + (Reverse(init) + history) == ([last] + Reverse(init)) + history; }
        Take(Reverse(items) + history, MaxHistory);
      }
    } else {
      assert Reverse(items) + history == history;
    }
  }

  lemma ReverseSnoc<T>(s: seq<T>, x: T)
    ensures Reverse(s + [x]) == [x] + Reverse(s)
  {
  }

  /** After 21 or more evaluations the history holds exactly the last 20, newest first; the earlier ones are gone. */
  lemma OldestEvicted(items: seq<HistoryItem>)
    requires |items| > MaxHistory
    ensures |RecordAll([], items)| == MaxHistory
    ensures forall j :: 0 <= j < MaxHistory ==> RecordAll([], items)[j] == items[|items| - 1 - j]
  {
    RecordAllNewestFirst([], items);
    assert Reverse(items) + [] == Reverse(items);
  }

  // ---------------------------------------------------------------------------
  // Typing digits

  /** The digits with leading zeros removed. */
  function DropLeadingZeros(ds: string): (r: string)
    ensures r != [] ==> r[0] != '0'
  {
    if ds != [] && ds[0] == '0' then DropLeadingZeros(ds[1..]) else ds
  }

  /** What the display shows after typing `ds` into a fresh operand: "0" until a non-zero digit arrives, then the digits from it on. */
  function Typed(ds: string): string {
    var t := DropLeadingZeros(ds);
    if t == [] then "0" else t
  }

  lemma {:induction false} DropLeadingZerosSnoc(ds: string, d: char)
    ensures DropLeadingZeros(ds + [d]) ==
      if DropLeadingZeros(ds) == [] then DropLeadingZeros([d]) else DropLeadingZeros(ds) + [d]
  {
    if ds == [] {
      assert ds + [d] == [d];
    } else if ds[0] == '0' {
      assert (ds + [d])[1..] == ds[1..] + [d];
      DropLeadingZerosSnoc(ds[1..], d);
    }
  }

  function DigitPresses(ds: seq<Digit>): (acts: seq<Action>)
    ensures |acts| == |ds|
  {
    seq(|ds|, i requires 0 <= i < |ds| => PressDigit(ds[i]))
  }

  /** Typing digits after a clear shows them with leading zeros suppressed; nothing else changes. */
  lemma {:induction false} TypingDigits(history: seq<HistoryItem>, ds: seq<Digit>, evaluate: string -> Outcome)
    ensures Run(State("0", "", false, history), DigitPresses(ds), evaluate) == State(Typed(ds), "", false, history)
    decreases |ds|
  {
    if ds != [] {
      var init, d := ds[..|ds| - 1], ds[|ds| - 1];
      assert DigitPresses(ds)[..|ds| - 1] == DigitPresses(init);
      TypingDigits(history, init, evaluate);
      DropLeadingZerosSnoc(init, d);
      assert ds == init + [d];
    }
  }

  /** Entering 2 + 3 = hands "2 + 3" to the evaluator and records it with its result. */
  lemma TwoPlusThree(evaluate: string -> Outcome, history: seq<HistoryItem>)
    requires evaluate("2 + 3").Success?
    ensures var acts := [PressDigit('2'), PressOperator('+'), PressDigit('3'), PressEqual];
      var t := Run(State("0", "", false, history), acts, evaluate);
      t.display == evaluate("2 + 3").text && t.equation == "" && t.justCalculated &&
      t.history == Record(history, HistoryItem("2 + 3", evaluate("2 + 3").text))
  {
    var s0 := State("0", "", false, history);
    var a1, a2, a3, a4 := PressDigit('2'), PressOperator('+'), PressDigit('3'), PressEqual;
    assert [a1] == [] + [a1];
    assert [a1, a2] == [a1] + [a2];
    assert [a1, a2, a3] == [a1, a2] + [a3];
    assert [a1, a2, a3, a4] == [a1, a2, a3] + [a4];
    RunSnoc(s0, [], a1, evaluate);
    RunSnoc(s0, [a1], a2, evaluate);
    RunSnoc(s0, [a1, a2], a3, evaluate);
    RunSnoc(s0, [a1, a2, a3], a4, evaluate);
    assert Run(s0, [a1, a2], evaluate) == State("0", "2 + ", false, history);
    assert Run(s0, [a1, a2, a3], evaluate) == State("3", "2 + ", false, history);
    assert Expression(State("3", "2 + ", false, history)) == "2 + 3";
  }

  /** After a result, a digit starts a new operand holding that digit alone. */
  lemma DigitAfterResult(s: State, d: Digit, evaluate: string -> Outcome)
    requires !(s.equation == [] && s.display == "0")
    ensures NumberPressed(EqualPressed(s, evaluate), d) == State([d], "", false, EqualPressed(s, evaluate).history)
  {
  }
}
