/** Sessions driven by a sequence of button presses, and the session invariant:
    the history is exactly one line per successful evaluation, in order, and the
    last result is set exactly when some evaluation has succeeded.

    Each press carries its own collaborators, so the same text may evaluate to
    different values on different presses (the evaluator offers random numbers). */
module Runs {
  import opened Wrappers
  import C = Calculator
  import D = Dispatch

  /** One button press: the action it runs and the collaborators it runs against. */
  datatype Event<!V> = Event(env: C.Env<V>, action: D.Action)

  /** One successful evaluation: the expression, its value, and the value as shown. */
  datatype Evaluation<V> = Evaluation(expression: string, value: V, shown: string)

  /** The session after one press. */
  function Apply<V>(s: C.Session<V>, e: Event<V>): (r: C.Session<V>)
    ensures s.history <= r.history
  {
    D.Step(e.env, s, e.action)
  }

  /** The session after the presses `events` in order from `s`; the history only grows. */
  function Run<V>(s: C.Session<V>, events: seq<Event<V>>): (r: C.Session<V>)
    ensures s.history <= r.history
    decreases |events|
  {
    if |events| == 0 then s else Run(Apply(s, events[0]), events[1..])
  }

  /** The successful evaluation performed by one press: one exactly when it succeeds. */
  function StepEvaluations<V>(s: C.Session<V>, e: Event<V>): (r: seq<Evaluation<V>>)
    ensures |r| == (if D.Succeeds(e.env, s, e.action) then 1 else 0)
    ensures |r| == 1 ==> r[0].expression == s.buffer && Some(r[0].value) == e.env.eval(s.buffer)
  {
    if D.Succeeds(e.env, s, e.action) then
      var v := e.env.eval(s.buffer).value;
      [Evaluation(s.buffer, v, e.env.show(v).value)]
    else []
  }

  /** The successful evaluations of a run, in order; at most one per press. */
  function Evaluations<V>(s: C.Session<V>, events: seq<Event<V>>): (r: seq<Evaluation<V>>)
    ensures |r| <= |events|
    decreases |events|
  {
    if |events| == 0 then []
    else StepEvaluations(s, events[0]) + Evaluations(Apply(s, events[0]), events[1..])
  }

  /** The history lines that record the given evaluations. */
  function Entries<V>(evs: seq<Evaluation<V>>): (r: seq<string>)
    ensures |r| == |evs|
  {
    seq(|evs|, i requires 0 <= i < |evs| => C.HistoryEntry(evs[i].expression, evs[i].shown))
  }

  /** The lines of two lists of evaluations are the lines of each, in order. */
  lemma EntriesAppend<V>(a: seq<Evaluation<V>>, b: seq<Evaluation<V>>)
    ensures Entries(a + b) == Entries(a) + Entries(b)
  {
  }

  /** Appending the lines of `a` and then those of `b` appends the lines of `a + b`. */
  lemma AppendEntriesTwice<V>(h0: seq<string>, h1: seq<string>, h2: seq<string>,
                              a: seq<Evaluation<V>>, b: seq<Evaluation<V>>)
    requires h1 == h0 + Entries(a)
    requires h2 == h1 + Entries(b)
    ensures h2 == h0 + Entries(a + b)
  {
    EntriesAppend(a, b);
    assert (h0 + Entries(a)) + Entries(b) == h0 + (Entries(a) + Entries(b));
  }

  /** One press appends the lines of its own successful evaluation, and the last
      result becomes that evaluation's value, if there is one. */
  lemma StepRecordsEvaluation<V>(s: C.Session<V>, e: Event<V>)
    ensures Apply(s, e).history == s.history + Entries(StepEvaluations(s, e))
    ensures var here := StepEvaluations(s, e);
      Apply(s, e).last == if |here| == 0 then s.last else Some(here[0].value)
  {
    if !D.Succeeds(e.env, s, e.action) {
      assert Entries<V>([]) == [];
    }
  }

  /** A run appends to the history exactly the lines of its successful evaluations,
      in order. */
  lemma {:induction false} RunRecordsEvaluations<V>(s: C.Session<V>, events: seq<Event<V>>)
    ensures Run(s, events).history == s.history + Entries(Evaluations(s, events))
    decreases |events|
  {
    if |events| == 0 {
      assert Entries<V>([]) == [];
    } else {
      var t := Apply(s, events[0]);
      var here := StepEvaluations(s, events[0]);
      var rest := Evaluations(t, events[1..]);
      assert Run(s, events) == Run(t, events[1..]);
      assert Evaluations(s, events) == here + rest;
      RunRecordsEvaluations(t, events[1..]);
      StepRecordsEvaluation(s, events[0]);
      AppendEntriesTwice(s.history, t.history, Run(t, events[1..]).history, here, rest);
    }
  }

  /** A run ends with the value of its latest successful evaluation as last result,
      or with the starting last result when none succeeded. */
  lemma {:induction false} RunKeepsLatestValue<V>(s: C.Session<V>, events: seq<Event<V>>)
    ensures var evs := Evaluations(s, events);
      Run(s, events).last == if |evs| == 0 then s.last else Some(evs[|evs| - 1].value)
    decreases |events|
  {
    if |events| > 0 {
      var t := Apply(s, events[0]);
      var here := StepEvaluations(s, events[0]);
      var rest := Evaluations(t, events[1..]);
      assert Run(s, events) == Run(t, events[1..]);
      assert Evaluations(s, events) == here + rest;
      RunKeepsLatestValue(t, events[1..]);
      StepRecordsEvaluation(s, events[0]);
    }
  }

  /** From a fresh session: the history has one line per successful evaluation and
      the last result is absent exactly when no evaluation has succeeded. */
  lemma FreshSessionInvariant<V>(events: seq<Event<V>>)
    ensures |Run(C.Init(), events).history| == |Evaluations(C.Init(), events)|
    ensures Run(C.Init(), events).last.None? <==> |Evaluations(C.Init(), events)| == 0
  {
    RunRecordsEvaluations(C.Init(), events);
    RunKeepsLatestValue(C.Init(), events);
  }

  /** Before the first successful evaluation, the Ans button leaves the session as it is. */
  lemma AnswerBeforeFirstSuccess<V>(events: seq<Event<V>>, env: C.Env<V>)
    requires |Evaluations(C.Init(), events)| == 0
    ensures Apply(Run(C.Init(), events), Event(env, D.InsertAnswer)) == Run(C.Init(), events)
  {
    FreshSessionInvariant(events);
  }
}
