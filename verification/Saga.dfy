/**
 The saga orchestrator. Actions and compensations act on a world of any type; each may throw after having
 changed it. An empty action throws when called, as an empty std::function does.
 */
module Saga {
  import opened Options

  /** How a callable ends: the world it leaves, and for an exception whether it derives from std::exception. */
  datatype Ending<+W> = Finished(world: W) | Threw(world: W, standard: bool)

  datatype Step<!W> = Step(name: string, action: Option<W -> Ending<W>>, compensation: Option<W -> Ending<W>>)

  datatype Result = Completed | SagaError(at: nat) | Escaped(at: nat)

  /** One callable that was run: the action of a step, or its compensation. */
  datatype Event = Acted(step: nat) | Undone(step: nat)

  function Perform<W>(s: Step<W>, w: W): Ending<W> {
    match s.action
    case None => Threw(w, true)
    case Some(f) => f(w)
  }

  // ----- what a run comes to -----

  /** The world after the first k actions; `None` when one of them throws. */
  function Applied<W>(steps: seq<Step<W>>, w: W, k: nat): Option<W>
    requires k <= |steps|
  {
    if k == 0 then Some(w)
    else
      var before := Applied(steps, w, k - 1);
      if before.None? then None
      else
        var e := Perform(steps[k - 1], before.value);
        if e.Finished? then Some(e.world) else None
  }

  /** The world after compensating steps n - 1 down to 0; what a compensation throws is dropped. */
  function Compensated<W>(steps: seq<Step<W>>, w: W, n: nat): W
    requires n <= |steps|
    decreases n
  {
    if n == 0 then w
    else
      var c := steps[n - 1].compensation;
      Compensated(steps, if c.Some? then c.value(w).world else w, n - 1)
  }

  /** The compensations run for n completed steps: the non-empty ones, last step first. */
  function UndoOrder<W>(steps: seq<Step<W>>, n: nat): seq<Event>
    requires n <= |steps|
  {
    if n == 0 then []
    else (if steps[n - 1].compensation.Some? then [Undone(n - 1)] else []) + UndoOrder(steps, n - 1)
  }

  function Forward(n: nat): (es: seq<Event>)
    ensures |es| == n
    ensures forall i :: 0 <= i < n ==> es[i] == Acted(i)
  {
    seq(n, i requires 0 <= i => Acted(i))
  }

  /** A whole run: final world, result and the callables run, in order. */
  ghost predicate Explains<W>(steps: seq<Step<W>>, w0: W, w: W, r: Result, log: seq<Event>) {
    match r
    case Completed => Applied(steps, w0, |steps|) == Some(w) && log == Forward(|steps|)
    case SagaError(n) =>
      && n < |steps| && Applied(steps, w0, n).Some?
      && var e := Perform(steps[n], Applied(steps, w0, n).value);
      && e.Threw? && e.standard
      && w == Compensated(steps, e.world, n)
      && log == Forward(n + 1) + UndoOrder(steps, n)
    case Escaped(n) =>
      && n < |steps| && Applied(steps, w0, n).Some?
      && var e := Perform(steps[n], Applied(steps, w0, n).value);
      && e.Threw? && !e.standard
      && w == e.world
      && log == Forward(n + 1)
  }

  class SagaOrchestrator<W> {
    var steps: seq<Step<W>>

    constructor ()
      ensures steps == []
    {
      steps := [];
    }

    method AddStep(name: string, action: Option<W -> Ending<W>>, compensation: Option<W -> Ending<W>>)
      modifies this
      ensures steps == old(steps) + [Step(name, action, compensation)]
    {
      steps := steps + [Step(name, action, compensation)];
    }

    /** `run`, from world w0. */
    method Run(w0: W) returns (w: W, r: Result, log: seq<Event>)
      ensures Explains(steps, w0, w, r, log)
    {
      w, log := w0, [];
      var completed := 0;
      for i := 0 to |steps|
        invariant completed == i
        invariant Applied(steps, w0, i) == Some(w)
        invariant log == Forward(i)
      {
        var e := Perform(steps[i], w);
        log := log + [Acted(i)];
        match e
        case Finished(w') =>
          w := w';
          completed := completed + 1;
        case Threw(w', standard) =>
          if !standard {
            return w', Escaped(i), log;
          }
          var undone;
          w, undone := Compensate(w', completed);
          return w, SagaError(i), log + undone;
      }
      r := Completed;
    }

    method Compensate(w0: W, upTo: nat) returns (w: W, log: seq<Event>)
      requires upTo <= |steps|
      ensures w == Compensated(steps, w0, upTo)
      ensures log == UndoOrder(steps, upTo)
    {
      w, log := w0, [];
      var i := upTo;
      while i > 0
        invariant 0 <= i <= upTo
        invariant Compensated(steps, w, i) == Compensated(steps, w0, upTo)
        invariant log + UndoOrder(steps, i) == UndoOrder(steps, upTo)
      {
        var c := steps[i - 1].compensation;
        ghost var rest := UndoOrder(steps, i - 1);
        if c.Some? {
          assert log + ([Undone(i - 1)] + rest) == (log + [Undone(i - 1)]) + rest;
          w := c.value(w).world;
          log := log + [Undone(i - 1)];
        }
        i := i - 1;
      }
    }
  }

  // ----- laws -----

  /** The explanation leaves no choice. */
  lemma ExplanationUnique<W>(steps: seq<Step<W>>, w0: W, w: W, r: Result, log: seq<Event>, w': W, r': Result, log': seq<Event>)
    requires Explains(steps, w0, w, r, log) && Explains(steps, w0, w', r', log')
    ensures w == w' && r == r' && log == log'
  {
    var n, n' := Reached(steps, r), Reached(steps, r');
    if n < n' {
      AppliedPrefix(steps, w0, n + 1, n');
    } else if n' < n {
      AppliedPrefix(steps, w0, n' + 1, n);
    }
  }

  function Reached<W>(steps: seq<Step<W>>, r: Result): nat {
    if r.Completed? then |steps| else r.at
  }

  lemma {:induction false} AppliedPrefix<W>(steps: seq<Step<W>>, w: W, k: nat, n: nat)
    requires k <= n <= |steps| && Applied(steps, w, n).Some?
    ensures Applied(steps, w, k).Some?
  {
    if k < n {
      AppliedPrefix(steps, w, k, n - 1);
    }
  }

  /** Exactly the completed steps that have a compensation are undone, each once, in reverse order. */
  lemma {:induction false} UndoneExactly<W>(steps: seq<Step<W>>, n: nat, i: nat)
    requires n <= |steps|
    ensures Undone(i) in UndoOrder(steps, n) <==> i < n && steps[i].compensation.Some?
    ensures forall j, k :: 0 <= j < k < |UndoOrder(steps, n)| ==> UndoOrder(steps, n)[j].step > UndoOrder(steps, n)[k].step
    ensures forall j :: 0 <= j < |UndoOrder(steps, n)| ==> UndoOrder(steps, n)[j].Undone? && UndoOrder(steps, n)[j].step < n
  {
    if n > 0 {
      UndoneExactly(steps, n - 1, i);
    }
  }

  // ----- a saga is nested try blocks -----

  /**
   Steps i and later, run from world w: a step whose action finishes runs the later steps inside a try block
   and, if they fail with a standard exception, its compensation afterwards.
   */
  function Nested<W>(steps: seq<Step<W>>, w: W, i: nat): (W, Result, seq<Event>)
    requires i <= |steps|
    decreases |steps| - i
  {
    if i == |steps| then (w, Completed, [])
    else
      match Perform(steps[i], w)
      case Threw(w', standard) => (w', if standard then SagaError(i) else Escaped(i), [Acted(i)])
      case Finished(w') =>
        var (w'', r, log) := Nested(steps, w', i + 1);
        if r.SagaError? && steps[i].compensation.Some?
        then (steps[i].compensation.value(w'').world, r, [Acted(i)] + log + [Undone(i)])
        else (w'', r, [Acted(i)] + log)
  }

  /** What is still to be done around steps i and later: compensating the steps before them. */
  lemma {:induction false} NestedExplains<W>(steps: seq<Step<W>>, w0: W, w: W, i: nat)
    requires i <= |steps| && Applied(steps, w0, i) == Some(w)
    ensures var (w', r, log) := Nested(steps, w, i);
            if r.SagaError? then Explains(steps, w0, Compensated(steps, w', i), r, Forward(i) + log + UndoOrder(steps, i))
            else Explains(steps, w0, w', r, Forward(i) + log)
    decreases |steps| - i
  {
    if i == |steps| {
      assert Forward(i) + [] == Forward(i);
    } else {
      assert Forward(i) + [Acted(i)] == Forward(i + 1);
      var e := Perform(steps[i], w);
      if e.Finished? {
        NestedExplains(steps, w0, e.world, i + 1);
        var (w', r, log) := Nested(steps, e.world, i + 1);
        Regrouped(Forward(i), Acted(i), log, Undone(i), UndoOrder(steps, i));
      }
    }
  }

  lemma Regrouped(fore: seq<Event>, a: Event, log: seq<Event>, u: Event, undo: seq<Event>)
    ensures fore + ([a] + log) == fore + [a] + log
    ensures fore + ([a] + log + [u]) + undo == fore + [a] + log + ([u] + undo)
    ensures fore + ([a] + log) + undo == fore + [a] + log + ([] + undo)
  {
    assert [] + undo == undo;
  }

  /** The loop with its reverse pass is exactly that nesting. */
  lemma ExplainsExactly<W>(steps: seq<Step<W>>, w0: W, w: W, r: Result, log: seq<Event>)
    ensures Explains(steps, w0, w, r, log) <==> (w, r, log) == Nested(steps, w0, 0)
  {
    NestedExplains(steps, w0, w0, 0);
    var (w', r', log') := Nested(steps, w0, 0);
    assert Forward(0) + log' == log' && log' + UndoOrder(steps, 0) == log';
    hide Nested, Explains;
    if Explains(steps, w0, w, r, log) {
      ExplanationUnique(steps, w0, w, r, log, w', r', log');
    }
  }

  // ----- where a run stops -----

  /** The first step from i on whose action throws when started in world w; the number of steps if none does. */
  function ThrowFrom<W>(steps: seq<Step<W>>, w: W, i: nat): nat
    requires i <= |steps|
    decreases |steps| - i
  {
    if i == |steps| then i
    else
      match Perform(steps[i], w)
      case Finished(w') => ThrowFrom(steps, w', i + 1)
      case Threw(_, _) => i
  }

  /** The step at which a run from w0 stops. */
  function FirstThrow<W>(steps: seq<Step<W>>, w0: W): nat {
    ThrowFrom(steps, w0, 0)
  }

  lemma {:induction false} ThrowFromStops<W>(steps: seq<Step<W>>, w0: W, w: W, i: nat)
    requires i <= |steps| && Applied(steps, w0, i) == Some(w)
    ensures var n := ThrowFrom(steps, w, i);
            && i <= n <= |steps| && Applied(steps, w0, n).Some?
            && (n < |steps| ==> Perform(steps[n], Applied(steps, w0, n).value).Threw?)
    decreases |steps| - i
  {
    if i < |steps| && Perform(steps[i], w).Finished? {
      ThrowFromStops(steps, w0, Perform(steps[i], w).world, i + 1);
    }
  }

  /** How the action at which the run stops ends. */
  function LastEnding<W>(steps: seq<Step<W>>, w0: W): (e: Ending<W>)
    requires FirstThrow(steps, w0) < |steps|
    ensures Applied(steps, w0, FirstThrow(steps, w0)).Some? && e.Threw?
  {
    ThrowFromStops(steps, w0, w0, 0);
    Perform(steps[FirstThrow(steps, w0)], Applied(steps, w0, FirstThrow(steps, w0)).value)
  }

  /** Steps and initial world decide where a run stops and which exception it reports. */
  lemma StopsAt<W>(steps: seq<Step<W>>, w0: W, w: W, r: Result, log: seq<Event>)
    requires Explains(steps, w0, w, r, log)
    ensures Reached(steps, r) == FirstThrow(steps, w0)
    ensures r.Completed? <==> FirstThrow(steps, w0) == |steps|
    ensures FirstThrow(steps, w0) < |steps| ==> (r.SagaError? <==> LastEnding(steps, w0).standard)
  {
    hide ThrowFrom;
    var n, m := Reached(steps, r), FirstThrow(steps, w0);
    ThrowFromStops(steps, w0, w0, 0);
    if n < m {
      AppliedPrefix(steps, w0, n + 1, m);
    } else if m < n {
      AppliedPrefix(steps, w0, m + 1, n);
    }
  }

  // ----- which failures are undone -----

  /**
   A failed run undoes its completed steps exactly when the exception at which it stops derives from
   std::exception, or when there is nothing to undo. Nothing is asked of the compensations.
   */
  lemma UndoneExactlyWhenStandard<W>(steps: seq<Step<W>>, w0: W, w: W, r: Result, log: seq<Event>)
    requires Explains(steps, w0, w, r, log) && FirstThrow(steps, w0) < |steps|
    ensures var n := FirstThrow(steps, w0);
            log == Forward(n + 1) + UndoOrder(steps, n) <==>
              LastEnding(steps, w0).standard || UndoOrder(steps, n) == []
  {
    hide FirstThrow, Forward, UndoOrder, Applied, Compensated;
    StopsAt(steps, w0, w, r, log);
    var n := FirstThrow(steps, w0);
    assert |Forward(n + 1) + UndoOrder(steps, n)| == |Forward(n + 1)| + |UndoOrder(steps, n)|;
  }

  /**
   If the action finishes in world w, its compensation restores w, whether or not it throws afterwards;
   a step without compensation left w as it was.
   */
  ghost predicate Inverts<W>(s: Step<W>, w: W) {
    var e := Perform(s, w);
    e.Finished? ==> (if s.compensation.Some? then s.compensation.value(e.world).world else e.world) == w
  }

  /** Step k is inverted in the world in which a run from w0 meets it. */
  ghost predicate InvertsAt<W>(steps: seq<Step<W>>, w0: W, k: nat)
    requires k < |steps|
  {
    Applied(steps, w0, k).Some? ==> Inverts(steps[k], Applied(steps, w0, k).value)
  }

  /** The first n steps are inverted where a run from w0 meets them. */
  ghost predicate PrefixInverts<W>(steps: seq<Step<W>>, w0: W, n: nat)
    requires n <= |steps|
  {
    forall k :: 0 <= k < n ==> InvertsAt(steps, w0, k)
  }

  lemma {:induction false} CompensationRestores<W>(steps: seq<Step<W>>, w0: W, n: nat)
    requires n <= |steps| && PrefixInverts(steps, w0, n) && Applied(steps, w0, n).Some?
    ensures Compensated(steps, Applied(steps, w0, n).value, n) == w0
  {
    if n > 0 {
      var w := Applied(steps, w0, n - 1).value;
      var w' := Perform(steps[n - 1], w).world;
      assert Perform(steps[n - 1], w).Finished? && Applied(steps, w0, n) == Some(w');
      assert InvertsAt(steps, w0, n - 1);
      assert Compensated(steps, w', n) == Compensated(steps, w, n - 1);
      CompensationRestores(steps, w0, n - 1);
    }
  }

  /** The completed steps are inverted where the run meets them, and the failing action leaves its world alone. */
  ghost predicate Reversible<W>(steps: seq<Step<W>>, w0: W)
    requires FirstThrow(steps, w0) < |steps|
  {
    var n := FirstThrow(steps, w0);
    PrefixInverts(steps, w0, n) && LastEnding(steps, w0).world == Applied(steps, w0, n).value
  }

  /**
   Atomicity: a reversible failed run ends in the initial world exactly when its exception is a standard one
   or the completed actions had come back to the initial world by themselves. The failing step and those
   behind it need no compensation.
   */
  lemma AllOrNothing<W>(steps: seq<Step<W>>, w0: W, w: W, r: Result, log: seq<Event>)
    requires Explains(steps, w0, w, r, log) && FirstThrow(steps, w0) < |steps| && Reversible(steps, w0)
    ensures w == w0 <==> LastEnding(steps, w0).standard || Applied(steps, w0, FirstThrow(steps, w0)) == Some(w0)
  {
    hide FirstThrow, PrefixInverts, Compensated;
    StopsAt(steps, w0, w, r, log);
    CompensationRestores(steps, w0, FirstThrow(steps, w0));
  }

  // ----- a foreign exception leaves completed steps standing -----

  /** Two steps over a counter: the first adds one and can be undone, the second throws a foreign exception. */
  function ForeignSaga(): seq<Step<int>> {
    [Step("add", Some((w: int) => Finished(w + 1)), Some((w: int) => Finished(w - 1))),
     Step("fail", Some((w: int) => Threw(w, false)), None)]
  }

  /** A reversible saga whose run fails, leaves the first step done and runs no compensation. */
  lemma ForeignExceptionLeavesStep(w0: int)
    ensures var steps := ForeignSaga();
            && FirstThrow(steps, w0) == 1 && Reversible(steps, w0)
            && UndoOrder(steps, 1) == [Undone(0)]
            && Explains(steps, w0, w0 + 1, Escaped(1), Forward(2))
            && forall i :: Undone(i) !in Forward(2)
  {
    var steps := ForeignSaga();
    assert Applied(steps, w0, 0) == Some(w0);
    assert Perform(steps[0], w0) == Finished(w0 + 1);
    assert Applied(steps, w0, 1) == Some(w0 + 1);
    assert Perform(steps[1], w0 + 1) == Threw(w0 + 1, false);
    assert ThrowFrom(steps, w0 + 1, 1) == 1;
    assert InvertsAt(steps, w0, 0);
    assert UndoOrder(steps, 0) == [];
  }
}
