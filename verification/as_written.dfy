/** Evaluation and Ans exactly as the source orders them. The raw result is stored
    as the last value before it is formatted, and Python's `None` in that same field
    also means "no answer yet". Two consequences follow, and `Calculator` corrects
    both; the rest of the model uses `Calculator`:
    - an evaluation whose result is `None` is recorded in the history but leaves
      the stored value `None`, which Ans reads as no answer, so Ans forgets every
      earlier answer;
    - an evaluation whose result cannot be shown ends with the error marker and no
      history line, yet its value has already replaced the last result. */
module AsWritten {
  import opened Wrappers
  import C = Calculator

  /** A Python value: `None` or some other value. */
  datatype PyValue<X> = PyNone | Py(x: X)

  /** The session fields as the source keeps them: `lastValue` is `PyNone` initially. */
  datatype RawSession<X> = RawSession(buffer: string, history: seq<string>, lastValue: PyValue<X>)

  /** Evaluation as written: the raw result, whatever it is, becomes the last value
      first; only then is it formatted for the history line and the field, and a
      failure there shows the error marker without a history line. */
  function Evaluate<X>(env: C.Env<PyValue<X>>, s: RawSession<X>): (r: RawSession<X>)
    ensures env.eval(s.buffer).None? ==>
      r.buffer == C.ErrorText && r.history == s.history && r.lastValue == s.lastValue
    ensures env.eval(s.buffer).Some? ==> r.lastValue == env.eval(s.buffer).value
    ensures env.eval(s.buffer).Some? && env.show(env.eval(s.buffer).value).None? ==>
      r.buffer == C.ErrorText && r.history == s.history
    ensures env.eval(s.buffer).Some? && env.show(env.eval(s.buffer).value).Some? ==>
      var shown := env.show(env.eval(s.buffer).value).value;
      r.history == s.history + [C.HistoryEntry(s.buffer, shown)] && r.buffer == shown
  {
    match env.eval(s.buffer)
    case None => s.(buffer := C.ErrorText)
    case Some(v) =>
      var stored := s.(lastValue := v);
      match env.show(v)
      case None => stored.(buffer := C.ErrorText)
      case Some(shown) => stored.(buffer := shown, history := s.history + [C.HistoryEntry(s.buffer, shown)])
  }

  /** Ans as written: inserts the shown last value unless it is `None`; a value that
      cannot be shown raises before anything is inserted. */
  function InsertLastResult<X>(env: C.Env<PyValue<X>>, s: RawSession<X>): (r: RawSession<X>)
    ensures s.lastValue.PyNone? ==> r == s
    ensures env.show(s.lastValue).None? ==> r == s
    ensures s.lastValue.Py? && env.show(s.lastValue).Some? ==>
      r.buffer == s.buffer + env.show(s.lastValue).value
    ensures r.history == s.history && r.lastValue == s.lastValue
  {
    if s.lastValue.PyNone? then s
    else
      match env.show(s.lastValue)
      case None => s
      case Some(shown) => s.(buffer := s.buffer + shown)
  }

  /** With an answer already stored, evaluating "None" succeeds and adds a history
      line, yet afterwards Ans on a cleared field inserts nothing. */
  lemma ForgetsAnswerAfterNone<X>(env: C.Env<PyValue<X>>, history: seq<string>, x: X)
    requires env.eval("None") == Some(PyNone)
    requires env.show(PyNone) == Some("None")
    ensures var r := Evaluate(env, RawSession("None", history, Py(x)));
      && |r.history| == |history| + 1
      && r.lastValue.PyNone?
      && InsertLastResult(env, r.(buffer := "")).buffer == ""
  {
  }

  /** The corrected session keeps the `None` result as an answer: Ans after the same
      evaluation inserts its shown form, as after any other successful evaluation. */
  lemma CorrectedKeepsNoneAnswer<X>(env: C.Env<PyValue<X>>, history: seq<string>, x: X)
    requires env.eval("None") == Some(PyNone)
    requires env.show(PyNone) == Some("None")
    ensures var r := C.Evaluate(env, C.Session("None", history, Some(Py(x))));
      && |r.history| == |history| + 1
      && r.last == Some(PyNone)
      && C.InsertLastResult(env, C.Clear(r)).buffer == "None"
  {
  }

  /** An evaluation whose value cannot be shown ends with the error marker and no new
      history line, yet it replaces the stored answer, which Ans then cannot insert. */
  lemma StoresUnshownResult<X>(env: C.Env<PyValue<X>>, s: RawSession<X>, big: X)
    requires env.eval(s.buffer) == Some(Py(big))
    requires env.show(Py(big)).None?
    requires s.lastValue != Py(big)
    ensures var r := Evaluate(env, s);
      && r.buffer == C.ErrorText
      && r.history == s.history
      && r.lastValue != s.lastValue
      && InsertLastResult(env, r.(buffer := "")).buffer == ""
  {
  }

  /** The corrected session treats the same evaluation as a failure throughout: the
      field shows the error marker and both history and last result stay as they were. */
  lemma CorrectedLeavesUnshownResult<X>(env: C.Env<PyValue<X>>, s: C.Session<PyValue<X>>, big: X)
    requires env.eval(s.buffer) == Some(Py(big))
    requires env.show(Py(big)).None?
    ensures var r := C.Evaluate(env, s);
      && r.buffer == C.ErrorText
      && r.history == s.history
      && r.last == s.last
  {
  }
}
