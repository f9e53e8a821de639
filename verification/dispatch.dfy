/** The button grid's wiring: each button label selects one session action, and a
    label the table does not list inserts itself into the field. */
module Dispatch {
  import C = Calculator

  /** What a button does. `ShowHistory`, `SaveHistory` and `ToggleTheme` only touch
      the presentation or the file system, never the session. */
  datatype Action =
    | Scientific(f: C.SciFunc)
    | Equals
    | ClearField
    | DeleteChar
    | ShowHistory
    | SaveHistory
    | ToggleTheme
    | Pi
    | InsertAnswer
    | InsertLabel(text: string)

  const PiLabel: string := "π"        // the Greek letter pi
  const SquareLabel: string := "x²"   // x with a superscript two
  const RefreshLabel: string := "⟳"   // the clockwise open circle arrow

  /** The labels the dispatch table lists. */
  const TableLabels: set<string> :=
    {"sqrt", "log", "sin", "cos", "tan", SquareLabel, "=", "Clear", "Del",
     RefreshLabel, "History", "Save", "Theme", PiLabel, "Ans"}

  /** The action of the button labelled `name`. */
  function GetAction(name: string): (a: Action)
    ensures a.InsertLabel? <==> name !in TableLabels
    ensures a.InsertLabel? ==> a.text == name
    ensures name == "log" ==> a == Scientific(C.Log10)
    ensures name == SquareLabel ==> a == Scientific(C.Square)
    ensures a == ShowHistory <==> name == RefreshLabel || name == "History"
  {
    if name == "sqrt" then Scientific(C.Sqrt)
    else if name == "log" then Scientific(C.Log10)
    else if name == "sin" then Scientific(C.Sin)
    else if name == "cos" then Scientific(C.Cos)
    else if name == "tan" then Scientific(C.Tan)
    else if name == SquareLabel then Scientific(C.Square)
    else if name == "=" then Equals
    else if name == "Clear" then ClearField
    else if name == "Del" then DeleteChar
    else if name == RefreshLabel || name == "History" then ShowHistory
    else if name == "Save" then SaveHistory
    else if name == "Theme" then ToggleTheme
    else if name == PiLabel then Pi
    else if name == "Ans" then InsertAnswer
    else InsertLabel(name)
  }

  /** A label that selects `a` (the table's first, for the two history labels):
      a table label for every table action, the text itself for a literal insertion. */
  function LabelOf(a: Action): (r: string)
    ensures a.InsertLabel? ==> r == a.text
    ensures !a.InsertLabel? ==> r in TableLabels
  {
    match a
    case Scientific(f) =>
      (match f
       case Sqrt => "sqrt"
       case Log10 => "log"
       case Sin => "sin"
       case Cos => "cos"
       case Tan => "tan"
       case Square => SquareLabel)
    case Equals => "="
    case ClearField => "Clear"
    case DeleteChar => "Del"
    case ShowHistory => RefreshLabel
    case SaveHistory => "Save"
    case ToggleTheme => "Theme"
    case Pi => PiLabel
    case InsertAnswer => "Ans"
    case InsertLabel(t) => t
  }

  /** Every action is reachable from some button: the label of an action dispatches
      back to it, and a literal insertion is reachable exactly when its text is not
      a table label. */
  lemma LabelRoundTrip(a: Action)
    requires a.InsertLabel? ==> a.text !in TableLabels
    ensures GetAction(LabelOf(a)) == a
  {
  }

  /** Whether running `a` on `s` is a successful evaluation. */
  predicate Succeeds<V>(env: C.Env<V>, s: C.Session<V>, a: Action)
  {
    a.Equals? && C.EvaluationSucceeds(env, s.buffer)
  }

  /** The session after running action `a`. The history only grows, by the line of
      the evaluation exactly when one succeeds; the last result changes only then. */
  function Step<V>(env: C.Env<V>, s: C.Session<V>, a: Action): (r: C.Session<V>)
    ensures s.history <= r.history
    ensures Succeeds(env, s, a) ==>
      && r.history == s.history + [C.HistoryEntry(s.buffer, env.show(env.eval(s.buffer).value).value)]
      && r.last == env.eval(s.buffer)
    ensures !Succeeds(env, s, a) ==> r.history == s.history && r.last == s.last
    ensures a.ShowHistory? || a.SaveHistory? || a.ToggleTheme? ==> r == s
    ensures a.Scientific? ==> r == C.ApplyScientific(env, s, a.f)
    ensures a.Pi? ==> r == C.InsertPi(s)
  {
    match a
    case Scientific(f) => C.ApplyScientific(env, s, f)
    case Equals => C.Evaluate(env, s)
    case ClearField => C.Clear(s)
    case DeleteChar => C.DeleteLast(s)
    case ShowHistory => s
    case SaveHistory => s
    case ToggleTheme => s
    case Pi => C.InsertPi(s)
    case InsertAnswer => C.InsertLastResult(env, s)
    case InsertLabel(t) => C.Insert(s, t)
  }

  /** Pressing the button labelled `name`. The history only grows. A label the table
      does not list is typed into the field literally and changes nothing else. Every
      listed label runs its own operation: `log` the base-10 logarithm, `x²` squaring,
      the other scientific labels the function they name, π the insertion of pi, `=`
      evaluation, Ans, Clear and Del recall and editing; the history, Save and Theme
      labels leave the session as it is. */
  function Press<V>(env: C.Env<V>, s: C.Session<V>, name: string): (r: C.Session<V>)
    ensures s.history <= r.history
    ensures name !in TableLabels ==> r == s.(buffer := s.buffer + name)
    ensures name == "Ans" ==> r == C.InsertLastResult(env, s)
    ensures name == "Clear" ==> r == C.Clear(s)
    ensures name == "Del" ==> r == C.DeleteLast(s)
    ensures name == "=" ==> r == C.Evaluate(env, s)
    ensures name == "sqrt" ==> r == C.ApplyScientific(env, s, C.Sqrt)
    ensures name == "log" ==> r == C.ApplyScientific(env, s, C.Log10)
    ensures name == "sin" ==> r == C.ApplyScientific(env, s, C.Sin)
    ensures name == "cos" ==> r == C.ApplyScientific(env, s, C.Cos)
    ensures name == "tan" ==> r == C.ApplyScientific(env, s, C.Tan)
    ensures name == SquareLabel ==> r == C.ApplyScientific(env, s, C.Square)
    ensures name == PiLabel ==> r == C.InsertPi(s)
    ensures name == "Theme" || name == "Save" || name == "History" || name == RefreshLabel ==> r == s
  {
    Step(env, s, GetAction(name))
  }
}
