# Scientific calculator session — a Dafny model

This project models the calculator session of `ScientificCalculatorApp` in
`Py_Calculator.py`. A session is three pieces of state:

- the text of the entry field (`buffer`);
- the append-only list of `"expression = result"` lines (`history`, the source's `last_results`);
- the value of the latest successful evaluation (`last`, the source's `last_result_value`).

Each operation is a pure function from one `Session` to the next. The operations
are typing text, Clear, Del, `=` (evaluate), the six scientific buttons, π, Ans,
and the text that Save writes. The button-label dispatch table is modelled too.

The session calls four things it does not implement. They are fields of an `Env`
record that every operation takes as a parameter:

- `eval`: the safe expression evaluator, `simple_eval`;
- `toFloat`: Python's `float()` on the field text;
- `math`: the maths behind each scientific button (`math.sqrt`, `math.log10`,
  sine/cosine/tangent of an angle in degrees, `** 2`);
- `show`: Python's `str()` on a value.

Each returns `None` where the source would raise. For example, `str()` raises on
an integer longer than the interpreter's digit limit. The value type `V` is left
abstract.

Modules:

- `Wrappers`: `Option`.
- `Text`: `s[:-1]`, `"\n".join` and `str.split` on one character, with both round trips.
- `Calculator`: the session, its operations, and the history export text.
- `Dispatch`: button actions, the label table, and the single-step transition `Step`.
- `Runs`: sessions driven by a sequence of button presses, each with its own collaborators. This module proves the session invariant.
- `AsWritten`: the evaluation and Ans code in the source's own order, for the findings below.

## Model

| member | source | states |
|---|---|---|
| Text.DropLast | Py_Calculator.py:88-91 | removing the last character: an empty string stays empty; otherwise the result plus the old last character is the old string |
| Text.Join | Py_Calculator.py:121 | the newline join of no lines is empty; otherwise it begins with the first line and ends with the last |
| Text.SplitJoin | Py_Calculator.py:121 | splitting the newline-joined lines on newline gives back exactly those lines, in order, when none of them holds a newline |
| Text.JoinSplit | Py_Calculator.py:121 | joining the pieces of any split text with the separator gives the text back, so the join loses nothing |
| Calculator.HistoryEntry | Py_Calculator.py:98 | a history line is the expression, then ` = `, then the shown result, with nothing before, between or after |
| Calculator.Init | Py_Calculator.py:12-13 | a new session has an empty field, an empty history and no last result |
| Calculator.Insert | Py_Calculator.py:82-83 | the old field is a prefix of the new one and the added suffix is exactly the inserted text; history and last result are unchanged |
| Calculator.Clear | Py_Calculator.py:85-86 | the field becomes empty; history and last result are unchanged |
| Calculator.DeleteLast | Py_Calculator.py:88-91 | on an empty field the whole session is unchanged; otherwise the new field plus the removed last character is the old field; history and last result are unchanged |
| Calculator.Evaluate | Py_Calculator.py:93-103 | when both the evaluation and the display of its value succeed: exactly one line `expression = shown value` is appended, the earlier lines stay as they were, the last result becomes the value, and the field shows it; when either fails: the field becomes `Error` and history and last result stay as they were (the corrected form of line 97's ordering; see Findings) |
| Calculator.ApplyScientific | Py_Calculator.py:131-150 | history and last result never change; the field becomes `Error` when the parse, the maths or the display fails, and otherwise shows the function's result on the parsed number |
| Calculator.InsertPi | Py_Calculator.py:128-129 | the field gains the text of pi to eight decimals at its end; nothing else changes |
| Calculator.InsertLastResult | Py_Calculator.py:124-126 | without a last result, or with one that cannot be shown, the session is unchanged; otherwise the shown last result is appended to the field; history and last result are unchanged |
| Calculator.ExportText | Py_Calculator.py:113-121 | nothing is written exactly when the history is empty |
| Calculator.ExportRoundTrip | Py_Calculator.py:119-121 | the exported text, split on newline characters, reproduces the history in order when no line holds a newline |
| Calculator.InsertThenDelete | Py_Calculator.py:82-91 | typing one character and then pressing Del restores the whole session |
| Calculator.DeleteThenRetype | Py_Calculator.py:82-91 | on a non-empty field, pressing Del and retyping the removed character restores the whole session |
| Calculator.RecallAfterEvaluate | Py_Calculator.py:124-126 | after a successful evaluation, Clear and then Ans leave exactly the shown value in the field |
| Dispatch.GetAction | Py_Calculator.py:42-60 | a label inserts itself literally exactly when the table does not list it; `log` selects base-10 logarithm, `x²` squaring, and both `⟳` and `History` the history view |
| Dispatch.LabelOf | Py_Calculator.py:43-59 | every table action has a label in the table, and a literal insertion's label is its own text |
| Dispatch.LabelRoundTrip | Py_Calculator.py:42-60 | every action is selected by some label: the label of an action dispatches back to it, and a literal insertion does so whenever its text is not a table label |
| Dispatch.Step | Py_Calculator.py:42-60 | any button keeps the old history as a prefix; on a successful evaluation it gains exactly that evaluation's `expression = shown value` line and the last result becomes the value; otherwise history and last result are unchanged; history view, Save and Theme leave the session unchanged; a scientific action runs the scientific operation with its own function, and the pi action appends pi |
| Dispatch.Press | Py_Calculator.py:36-60 | pressing any button keeps the old history as a prefix; an unlisted label appends itself to the field and changes nothing else; `sqrt`, `log`, `sin`, `cos`, `tan` and `x²` run the scientific operation with square root, base-10 logarithm, sine, cosine, tangent and squaring; `π` appends pi; `=`, `Ans`, `Clear` and `Del` run evaluation, recall, clearing and deletion; `Theme`, `Save`, `History` and `⟳` leave the session unchanged |
| Runs.Apply | Py_Calculator.py:36-60 | one button press, run against that press's own collaborators, keeps the old history as a prefix |
| Runs.Run | Py_Calculator.py:42-60 | over any sequence of button presses the old history stays a prefix of the new one |
| Runs.StepRecordsEvaluation | Py_Calculator.py:93-100 | one button press adds exactly the line of its own successful evaluation, if any, and then makes that evaluation's value the last result |
| Runs.RunRecordsEvaluations | Py_Calculator.py:93-100 | over any sequence of button presses, the lines added to the history are exactly one per successful evaluation, in chronological order |
| Runs.RunKeepsLatestValue | Py_Calculator.py:97 | over any sequence of button presses, the last result is the value of the latest successful evaluation, or the starting one if none succeeded |
| Runs.FreshSessionInvariant | Py_Calculator.py:12-13 | from a new session, the history length equals the number of successful evaluations, and the last result is absent exactly when none has succeeded |
| Runs.AnswerBeforeFirstSuccess | Py_Calculator.py:124-126 | from a new session, Ans is a no-op until some evaluation has succeeded |
| AsWritten.Evaluate | Py_Calculator.py:93-103 | as written: any value the evaluator returns, even Python `None` or one that cannot be shown, becomes the last value; the history line and the field follow only if the value can be shown, else the field shows `Error` |
| AsWritten.InsertLastResult | Py_Calculator.py:124-126 | as written: Ans does nothing when the stored last value is `None` or cannot be shown |
| AsWritten.ForgetsAnswerAfterNone | Py_Calculator.py:97-98 | as written: with an answer already stored, evaluating `None` adds a history line, but Ans then inserts nothing |
| AsWritten.CorrectedKeepsNoneAnswer | Py_Calculator.py:93-100 | corrected: after the same evaluation, Ans inserts the shown `None` result, as after any other success |
| AsWritten.StoresUnshownResult | Py_Calculator.py:96-103 | as written: an evaluation whose value cannot be shown ends with `Error` and no history line, yet it replaces the stored answer |
| AsWritten.CorrectedLeavesUnshownResult | Py_Calculator.py:96-103 | corrected: the same evaluation is a failure throughout, so history and last result stay as they were |

## Findings

| source | as written | input that shows it | evidently intended | confidence | as-written member | corrected member |
|---|---|---|---|---|---|---|
| Py_Calculator.py:97-98 | `last_result_value` holds the raw result, and `None` in it also means "no answer yet" (line 125) | field text `None`: Python parses it as the constant `None`, and the evaluator returns constants as they are. So the evaluation succeeds and records `None = None`, but the last value becomes `None`, and Ans then inserts nothing, losing any earlier answer | the last result is absent only before the first successful evaluation, and Ans recalls the latest answer | high (Python 3.8 and later parse `None` as a constant; not executed) | AsWritten.ForgetsAnswerAfterNone | AsWritten.CorrectedKeepsNoneAnswer |
| Py_Calculator.py:97-100 | the value is stored at line 97 before the f-string at line 98 and `str()` at line 100 format it | field text `10**5000`: on Python 3.11 and later, and on the 3.7–3.10 security releases that carry the same limit, formatting an integer of more than 4300 digits raises. So the field shows `Error` and no line is recorded, yet the last value is now that integer, and Ans then raises too | a failed evaluation leaves the last result unchanged, so history and last result always agree | high for interpreters with the integer-digit limit (not executed) | AsWritten.StoresUnshownResult | AsWritten.CorrectedLeavesUnshownResult |

The corrected model is `Calculator`. It keeps the last result as an `Option`, so
every success sets it. It counts an evaluation as successful only when its value
can also be shown. `Calculator.Evaluate` states both corrections in its contract,
and `Runs.FreshSessionInvariant` proves the resulting session invariant.

## Left out

- Tk layout, button creation and theme colours (Py_Calculator.py:18-40, 62-80): these are presentation only. `ToggleTheme` is a session no-op.
- The key bindings for Return and BackSpace (Py_Calculator.py:22-23), and typing or deleting at an arbitrary cursor position inside the entry widget: both are widget behaviour. Only button presses are modelled. Return runs the same `Evaluate`. BackSpace runs `DeleteLast` too, but when the field has focus the entry widget's own binding first deletes the character before the cursor, so one key press removes two characters.
- The history popup window (Py_Calculator.py:105-111): presentation. `ShowHistory` is a session no-op.
- The file dialog, the message boxes, and opening and writing the file (Py_Calculator.py:114-122): these are I/O. Only the rule "empty history means nothing is written" and the written text are modelled. Cancelling the dialog is not modelled.
- The internals of `simple_eval`: it is a foreign library, so it is the uninterpreted `eval` parameter.
- Calculator.Evaluate: within one press, `eval` is a function of the text. `simple_eval`'s default functions include `rand()` and `randint()`, so in the source the same text can give different values on different presses. The `Runs` lemmas cover this, because each press in a run carries its own evaluator.
- Floating-point parsing, the maths functions and `str()` formatting: these are abstract parameters. So the model does not fix which inputs fail. For example, it does not fix that a negative number fails for `sqrt`, or that `sin 90` is near 1.
- Calculator.InsertLastResult: when the stored value cannot be shown, the source's exception is reported by Tk's callback handler. The model keeps only its effect on the session, which is none.
- Calculator.ApplyScientific: it takes the function as one of six constructors. The source's fall-through for an unknown function name raises and shows `Error`, but no button can request an unknown name.
- Calculator.InsertPi: it appends the fixed text `3.14159265`, which is pi rounded to eight decimals as Python prints it. Rounding is not modelled.
