/** The calculator session of `ScientificCalculatorApp`: the text of the entry field,
    the append-only list of "expression = result" lines, and the last evaluated value.
    Every operation is a pure transition from one session to the next.

    The collaborators the session calls but does not implement are parameters,
    gathered in `Env`: the safe expression evaluator, Python's `float()` parse,
    the maths of each scientific button, and `str()` on a value. Each returns
    `None` where the source would raise (`str()` raises, for one, on an integer
    longer than the interpreter's digit limit). */
module Calculator {
  import opened Wrappers
  import Text

  /** The six scientific functions a button can request. */
  datatype SciFunc = Sqrt | Log10 | Sin | Cos | Tan | Square

  datatype Env<!V> = Env(
    eval: string -> Option<V>,       // the expression evaluator; None when it raises
    toFloat: string -> Option<V>,    // float(text); None when the text is not a number
    math: (SciFunc, V) -> Option<V>, // sqrt, log10, sin/cos/tan of degrees, x ** 2; None on a domain or range error
    show: V -> Option<string>)       // str(value); None when the conversion raises

  /** `buffer` is the entry field's text; `history` the recorded lines, oldest first;
      `last` the value of the latest successful evaluation, if any. */
  datatype Session<V> = Session(buffer: string, history: seq<string>, last: Option<V>)

  /** The marker that replaces the buffer when a computation fails. */
  const ErrorText: string := "Error"

  /** Pi rounded to eight decimals, as Python prints it. */
  const PiText: string := "3.14159265"

  /** The history line recorded for an evaluation: the expression, then " = ",
      then the shown result, with nothing else around them. */
  function HistoryEntry(expression: string, shown: string): (r: string)
    ensures |r| == |expression| + 3 + |shown|
    ensures r[..|expression|] == expression
    ensures r[|expression|..|expression| + 3] == " = "
    ensures r[|expression| + 3..] == shown
  {
    expression + " = " + shown
  }

  /** The session as the application starts: empty field, no history, no last
      result, so that nothing can be recalled and nothing would be saved. */
  function Init<V>(): (r: Session<V>)
    ensures |r.buffer| == 0 && |r.history| == 0
    ensures r.last.None?
  {
    Session("", [], None)
  }

  /** Appends `text` at the end of the field; nothing else changes. */
  function Insert<V>(s: Session<V>, text: string): (r: Session<V>)
    ensures s.buffer <= r.buffer
    ensures r.buffer[|s.buffer|..] == text
    ensures r.history == s.history && r.last == s.last
  {
    s.(buffer := s.buffer + text)
  }

  /** Empties the field; nothing else changes. */
  function Clear<V>(s: Session<V>): (r: Session<V>)
    ensures |r.buffer| == 0
    ensures r.history == s.history && r.last == s.last
  {
    s.(buffer := "")
  }

  /** Removes the last character of the field; an empty field stays empty. */
  function DeleteLast<V>(s: Session<V>): (r: Session<V>)
    ensures |s.buffer| == 0 ==> r == s
    ensures |s.buffer| > 0 ==> r.buffer + [s.buffer[|s.buffer| - 1]] == s.buffer
    ensures r.history == s.history && r.last == s.last
  {
    s.(buffer := Text.DropLast(s.buffer))
  }

  /** Whether evaluating `text` succeeds: the evaluator returns a value and that
      value can be shown. */
  predicate EvaluationSucceeds<V>(env: Env<V>, text: string)
  {
    env.eval(text).Some? && env.show(env.eval(text).value).Some?
  }

  /** Evaluates the field. On success the value becomes the last result, one line
      "expression = value" is appended after the unchanged earlier lines, and the
      field shows the value. On failure, whether the evaluator or the display of
      its value fails, only the field changes, to the error marker. */
  function Evaluate<V>(env: Env<V>, s: Session<V>): (r: Session<V>)
    ensures !EvaluationSucceeds(env, s.buffer) ==>
      r.buffer == ErrorText && r.history == s.history && r.last == s.last
    ensures EvaluationSucceeds(env, s.buffer) ==>
      var v := env.eval(s.buffer).value;
      var shown := env.show(v).value;
      && |r.history| == |s.history| + 1
      && r.history[..|s.history|] == s.history
      && r.history[|s.history|] == HistoryEntry(s.buffer, shown)
      && r.last == Some(v)
      && r.buffer == shown
  {
    match env.eval(s.buffer)
    case None => s.(buffer := ErrorText)
    case Some(v) =>
      match env.show(v)
      case None => s.(buffer := ErrorText)
      case Some(shown) => Session(shown, s.history + [HistoryEntry(s.buffer, shown)], Some(v))
  }

  /** Applies a scientific function to the number in the field. Only the field changes:
      it shows the result when the parse, the maths and the display all succeed, and
      the error marker when any of them fails. */
  function ApplyScientific<V>(env: Env<V>, s: Session<V>, f: SciFunc): (r: Session<V>)
    ensures r.history == s.history && r.last == s.last
    ensures env.toFloat(s.buffer).None? ==> r.buffer == ErrorText
    ensures env.toFloat(s.buffer).Some? && env.math(f, env.toFloat(s.buffer).value).None? ==>
      r.buffer == ErrorText
    ensures env.toFloat(s.buffer).Some? && env.math(f, env.toFloat(s.buffer).value).Some? ==>
      var y := env.math(f, env.toFloat(s.buffer).value).value;
      r.buffer == (if env.show(y).Some? then env.show(y).value else ErrorText)
  {
    var result := match env.toFloat(s.buffer)
      case None => None
      case Some(x) => env.math(f, x);
    var shown := match result
      case None => None
      case Some(y) => env.show(y);
    match shown
    case None => s.(buffer := ErrorText)
    case Some(t) => s.(buffer := t)
  }

  /** Appends the text of pi to eight decimals; nothing else changes. */
  function InsertPi<V>(s: Session<V>): (r: Session<V>)
    ensures r.buffer == s.buffer + PiText
    ensures r.history == s.history && r.last == s.last
  {
    Insert(s, PiText)
  }

  /** Appends the shown last result. Without a last result the session is unchanged,
      and so it is when the last result cannot be shown (the conversion raises inside
      the button's callback, before anything is inserted). */
  function InsertLastResult<V>(env: Env<V>, s: Session<V>): (r: Session<V>)
    ensures s.last.None? ==> r == s
    ensures s.last.Some? && env.show(s.last.value).None? ==> r == s
    ensures s.last.Some? && env.show(s.last.value).Some? ==>
      r.buffer == s.buffer + env.show(s.last.value).value
    ensures r.history == s.history && r.last == s.last
  {
    match s.last
    case None => s
    case Some(v) =>
      match env.show(v)
      case None => s
      case Some(shown) => Insert(s, shown)
  }

  /** The text written when the history is saved: `None` (nothing written) exactly
      for an empty history, otherwise the lines joined by newlines. */
  function ExportText(history: seq<string>): (r: Option<string>)
    ensures r.None? <==> |history| == 0
  {
    if |history| == 0 then None else Some(Text.Join(history, '\n'))
  }

  /** Splitting the exported text on newline characters gives exactly the history,
      in order, when no line holds a newline. */
  lemma ExportRoundTrip(history: seq<string>)
    requires |history| > 0
    requires Text.NoSeparator(history, '\n')
    ensures ExportText(history).Some?
    ensures Text.Split(ExportText(history).value, '\n') == history
  {
    Text.SplitJoin(history, '\n');
  }

  /** Typing one character and deleting it restores the session. */
  lemma InsertThenDelete<V>(s: Session<V>, c: char)
    ensures DeleteLast(Insert(s, [c])) == s
  {
    assert (s.buffer + [c])[..|s.buffer|] == s.buffer;
  }

  /** Deleting the last character and retyping it restores the session. */
  lemma DeleteThenRetype<V>(s: Session<V>)
    requires |s.buffer| > 0
    ensures Insert(DeleteLast(s), [s.buffer[|s.buffer| - 1]]) == s
  {
  }

  /** A successful evaluation followed by Clear and Ans puts the evaluated value,
      as shown, back in the field. */
  lemma RecallAfterEvaluate<V>(env: Env<V>, s: Session<V>)
    requires EvaluationSucceeds(env, s.buffer)
    ensures InsertLastResult(env, Clear(Evaluate(env, s))).buffer
      == env.show(env.eval(s.buffer).value).value
  {
  }
}
