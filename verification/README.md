# Calculator input state machine

A Dafny model of the calculator widget in `calculator.jsx`. The widget keeps four
pieces of state:

- `display`: the operand being typed;
- `equation`: the pending "operand op " fragment;
- `justCalculated`: set when the last action produced a result;
- `history`: the list of `{calculation, result}` pairs, newest first, at most 20 long.

Eight event handlers change this state: digit, decimal point, operator, delete,
clear (AC), equals, the history panel's Clear button, and a click on a history entry.

The model has two modules.

- `CalculatorSpec` (`engine.dfy`) holds the state as a value (`State`) and one pure
  transition per handler (`NumberPressed`, `DecimalPressed`, `OperatorPressed`,
  `DeletePressed`, `ClearPressed`, `EqualPressed`, `HistoryCleared`,
  `HistoryRecalled`). It also holds the capped history update `Record` and an
  `Invariant`. The invariant says: the display is non-empty and has at most one
  decimal point; the equation is empty or `operand + " " + op + " "`; the history
  has at most 20 entries, each with a displayable result. Lemmas prove that every
  transition keeps the invariant, and so does every session of actions (`Run`).
  Further lemmas cover the properties of single handlers and of many evaluations.
- `CalculatorApp` (`app.dfy`) holds the component itself: class `App` with the four
  fields and one method per handler, written branch by branch as in `calculator.jsx`.
  Each method is proved to perform exactly the matching transition (`HandleNumber`
  and `NumberPressed`, `HandleDecimal` and `DecimalPressed`, ..., `ClearHistory` and
  `HistoryCleared`, `RecallHistory` and `HistoryRecalled`), and to keep the invariant.

Evaluating the expression (JavaScript code built from the text, then rounded to
8 decimal places and turned back into a string) is not modelled. `HandleEqual` and
`EqualPressed` take an oracle `evaluate: string -> Outcome`. The oracle returns
`Success(text)` for the formatted result, or `Failure` when evaluation throws. The
invariant lemmas assume the oracle's texts are non-empty and have at most one
decimal point (`ValidOutcome`, `WellBehaved`), as JavaScript's number-to-string
output always does.

Three places where the code behaves differently from what one might expect; the model follows the code:

- The operator tokens are `+ - * / %`. The keypad's `÷` and `×` buttons pass `/` and `*`.
- Only a thrown evaluation leads to "Error". A division by zero in JavaScript yields
  `Infinity` or `NaN` without throwing. That text is shown and recorded like any
  other result, so the model does not fix which expressions fail.
- Delete on an empty display would leave it empty (`"".slice(0, -1)`), not "0".
  The invariant shows the display is never empty, so this case does not arise.

## Model

| member | source | states |
|---|---|---|
| CalculatorApp.App.constructor | calculator.jsx:5-9 | starts at display "0", no equation, flag clear, empty history; the invariant holds |
| CalculatorApp.App.HandleNumber | calculator.jsx:36-44 | the fields change exactly as `NumberPressed` says; the invariant is kept |
| CalculatorApp.App.HandleDecimal | calculator.jsx:46-56 | the fields change exactly as `DecimalPressed` says; the invariant is kept |
| CalculatorApp.App.HandleOperator | calculator.jsx:58-67 | the fields change exactly as `OperatorPressed` says; the invariant is kept |
| CalculatorApp.App.HandleDelete | calculator.jsx:69-81 | the fields change exactly as `DeletePressed` says; the invariant is kept |
| CalculatorApp.App.HandleClear | calculator.jsx:83-87 | the fields change exactly as `ClearPressed` says; the invariant is kept |
| CalculatorApp.App.HandleEqual | calculator.jsx:89-113 | the fields change exactly as `EqualPressed` says for the given evaluator; the invariant is kept when the evaluator's outcome is valid |
| CalculatorApp.App.ClearHistory | calculator.jsx:187 | only the history changes, and it becomes empty |
| CalculatorApp.App.RecallHistory | calculator.jsx:209-211 | only the display changes, to the chosen entry's result |
| CalculatorSpec.NumberPressed | calculator.jsx:36-44 | history untouched, flag cleared, display ends with the digit; after a result the display is the digit alone and the equation is empty; otherwise the equation is kept, a "0" display is replaced and any other is extended by the digit |
| CalculatorSpec.DecimalPressed | calculator.jsx:46-56 | history untouched, flag cleared, the display always holds a "."; after a result: "0." with no equation; otherwise the old display is a prefix, a display with a "." is left as it was, and one without gets "." appended |
| CalculatorSpec.OperatorPressed | calculator.jsx:58-67 | display "0", flag cleared, history untouched; the equation is the old display followed by " op " and has the pending shape |
| CalculatorSpec.DropLast | calculator.jsx:79 | a non-empty text is the result followed by its own last character |
| CalculatorSpec.DeletePressed | calculator.jsx:69-81 | after a result: back to the initial fields with history kept; otherwise the equation is kept, a one-character display becomes "0" and a longer one loses exactly its last character |
| CalculatorSpec.ClearPressed | calculator.jsx:83-87 | the initial fields with the history kept |
| CalculatorSpec.EqualPressed | calculator.jsx:89-113 | no change when the equation is empty and the display "0"; otherwise the equation is cleared and the flag set; on success the display is the evaluator's text for exactly equation + display and that pair is recorded; on failure the display is "Error" and history is unchanged |
| CalculatorSpec.Record | calculator.jsx:104 | at most 20 entries, one more than before until 20; the new item is first and the rest is a prefix of the old history |
| CalculatorSpec.HistoryCleared | calculator.jsx:187 | history empty, every other field unchanged |
| CalculatorSpec.HistoryRecalled | calculator.jsx:209-211 | display becomes the entry's result, every other field unchanged |
| CalculatorSpec.Pending | calculator.jsx:60-64 | the fragment is three characters longer than the operand, starts with it and carries the operator second from the end |
| CalculatorSpec.NumberKeepsInvariant | calculator.jsx:37-43 | a digit keeps the invariant (no second "." appears, the display stays non-empty) |
| CalculatorSpec.DecimalKeepsInvariant | calculator.jsx:47-55 | the decimal point keeps the invariant: "." is appended only to a display without one |
| CalculatorSpec.OperatorKeepsInvariant | calculator.jsx:58-66 | an operator keeps the invariant: the new equation has the pending shape |
| CalculatorSpec.DeleteKeepsInvariant | calculator.jsx:69-81 | delete keeps the invariant: the display never becomes empty |
| CalculatorSpec.EqualKeepsInvariant | calculator.jsx:89-113 | equals keeps the invariant when the evaluator's outcome for the expression is valid |
| CalculatorSpec.StepKeepsInvariant | calculator.jsx:36-113 | every user action keeps the invariant under a well-behaved evaluator |
| CalculatorSpec.RunKeepsInvariant | calculator.jsx:36-113 | every session from a state satisfying the invariant keeps it: the display is never empty and never holds two "." |
| CalculatorSpec.InitialSatisfiesInvariant | calculator.jsx:5-9 | the initial state satisfies the invariant |
| CalculatorSpec.DecimalIdempotent | calculator.jsx:46-56 | pressing "." twice is the same as once, and the display then holds exactly one "." |
| CalculatorSpec.OperatorOverwrites | calculator.jsx:58-66 | the previous equation plays no part: the new one is display + " " + op + " " |
| CalculatorSpec.ClearIdempotent | calculator.jsx:83-87 | clearing twice is clearing once, and the history survives |
| CalculatorSpec.EqualNothingEntered | calculator.jsx:90 | equals on display "0" with no equation changes no field |
| CalculatorSpec.EqualRecords | calculator.jsx:92-107 | after a successful evaluation the head of history is (equation + display, result), there are at most 20 entries, and the rest is a prefix of the old history |
| CalculatorSpec.RecordAllNewestFirst | calculator.jsx:104 | after any number of evaluations the history is the newest 20 results followed by the older history, newest first |
| CalculatorSpec.OldestEvicted | calculator.jsx:104 | after more than 20 evaluations from an empty history it holds exactly the last 20, newest first, so the earlier ones are gone |
| CalculatorSpec.TypingDigits | calculator.jsx:36-44 | typing digits after a clear shows them with leading zeros suppressed ("0" while only zeros were typed); equation, flag and history unchanged |
| CalculatorSpec.TwoPlusThree | calculator.jsx:36-107 | 2, +, 3, = hands "2 + 3" to the evaluator, displays its result, clears the equation and records ("2 + 3", result) |
| CalculatorSpec.DigitAfterResult | calculator.jsx:37-40 | after equals has acted, a digit starts a new operand holding that digit alone, with no equation |

## Left out

- The evaluation itself (`new Function('return ' + ...)`, line 96) and the rounding and number-to-string formatting (lines 97, 101). This is dynamic code execution and floating point, so the model takes it as the `evaluate` oracle.
- The keyboard listener (lines 13-27). Its unanchored digit test would also pass multi-character keys such as "F1" to handleNumber, and its dependency list leaves out `history`, so a keyboard equals can work on a stale history. Both are host UI wiring.
- CalculatorApp.App.HandleNumber: takes one digit character. handleNumber itself takes any string, which only the keyboard path above can supply.
- Auto-scroll of the display (lines 30-34), the history panel's visibility toggle (lines 8, 157, 193, and the `setShowHistory(false)` at line 211), the `Button` component and all markup and styling (lines 115-252): UI only.
- React's batching of state setters: each handler is one atomic transition that reads the state before it.
- Step: a click on a history index past the end cannot happen, since only existing entries are rendered; in a session of actions it changes nothing.
- The invariant lemmas hold only for an evaluator whose texts are non-empty with at most one "." (`ValidOutcome`); which expressions fail is not fixed.
