/**
 The circuit breaker. A call is three separately locked regions with the callable in between, so calls of
 any number of threads interleave and a completion can arrive in any phase. A run here is any sequence of
 locked regions; the clock readings taken inside the lock do not decrease along it.
 */
module CircuitBreaking {

  const WORD: nat := 0x1_0000_0000

  datatype Config = Config(failureThreshold: nat, successThreshold: nat, openDuration: int)

  ghost predicate ValidConfig(c: Config) {
    c.failureThreshold < WORD && c.successThreshold < WORD
  }

  datatype Phase = Closed | Open | HalfOpen

  datatype Breaker = Breaker(phase: Phase, failures: nat, successes: nat, openedAt: int)

  const FRESH := Breaker(Closed, 0, 0, 0)

  /** One locked region: the check before a call, or the record of how a call ended. */
  datatype Event = Check(now: int) | Success | Failure(now: int)

  predicate Refuses(c: Config, b: Breaker, now: int) {
    b.phase.Open? && now - b.openedAt < c.openDuration
  }

  function Step(c: Config, b: Breaker, e: Event): Breaker {
    match e
    case Check(now) =>
      if b.phase.Open? && !Refuses(c, b, now) then b.(phase := HalfOpen, successes := 0) else b
    case Success =>
      if b.phase.HalfOpen? then
        var n := (b.successes + 1) % WORD;
        if n >= c.successThreshold then b.(phase := Closed, successes := n, failures := 0) else b.(successes := n)
      else b.(failures := 0)
    case Failure(now) =>
      var n := (b.failures + 1) % WORD;
      if b.phase.HalfOpen? || n >= c.failureThreshold then b.(phase := Open, openedAt := now, failures := 0)
      else b.(failures := n)
  }

  datatype CallResult = Refused | Returned | Rethrown

  class CircuitBreaker {
    const config: Config
    var phase: Phase
    var failureCount: nat
    var successCount: nat
    var openedAt: int

    function State(): Breaker
      reads this
    {
      Breaker(phase, failureCount, successCount, openedAt)
    }

    constructor (config: Config)
      ensures this.config == config && State() == FRESH
    {
      this.config := config;
      phase := Closed;
      failureCount := 0;
      successCount := 0;
      openedAt := 0;
    }

    method IsOpen() returns (result: bool)
      ensures result <==> State().phase.Open?
    {
      result := phase == Open;
    }

    method CheckState(now: int) returns (admitted: bool)
      modifies this
      ensures admitted <==> !Refuses(config, old(State()), now)
      ensures State() == Step(config, old(State()), Check(now))
    {
      if phase == Open {
        var elapsed := now - openedAt;
        if elapsed >= config.openDuration {
          phase := HalfOpen;
          successCount := 0;
        } else {
          return false;
        }
      }
      return true;
    }

    method OnSuccess()
      modifies this
      ensures State() == Step(config, old(State()), Success)
    {
      if phase == HalfOpen {
        successCount := (successCount + 1) % WORD;
        if successCount >= config.successThreshold {
          phase := Closed;
          failureCount := 0;
        }
      } else {
        failureCount := 0;
      }
    }

    method OnFailure(now: int)
      modifies this
      ensures State() == Step(config, old(State()), Failure(now))
    {
      failureCount := (failureCount + 1) % WORD;
      if phase == HalfOpen || failureCount >= config.failureThreshold {
        phase := Open;
        openedAt := now;
        failureCount := 0;
      }
    }

    /** `call`, undisturbed by other threads; the callable returns or throws as told. */
    method Call(succeeds: bool, checkedAt: int, failedAt: int) returns (r: CallResult)
      modifies this
      ensures r == (if Refuses(config, old(State()), checkedAt) then Refused else if succeeds then Returned else Rethrown)
      ensures State() == After(config, old(State()), CallEvents(config, old(State()), succeeds, checkedAt, failedAt))
      ensures r.Refused? ==> State() == old(State())
      ensures !r.Refused? ==>
                State() == Step(config, Step(config, old(State()), Check(checkedAt)), if succeeds then Success else Failure(failedAt))
    {
      ghost var end := if succeeds then Success else Failure(failedAt);
      AfterCall(config, State(), Check(checkedAt), end);
      var admitted := CheckState(checkedAt);
      if !admitted {
        return Refused;
      }
      if succeeds {
        OnSuccess();
        return Returned;
      }
      OnFailure(failedAt);
      return Rethrown;
    }
  }

  /** The locked regions that one call goes through. */
  function CallEvents(c: Config, b: Breaker, succeeds: bool, checkedAt: int, failedAt: int): seq<Event> {
    [Check(checkedAt)] + (if Refuses(c, b, checkedAt) then [] else [if succeeds then Success else Failure(failedAt)])
  }

  function After(c: Config, b: Breaker, es: seq<Event>): Breaker {
    if es == [] then b else Step(c, After(c, b, es[..|es| - 1]), es[|es| - 1])
  }

  lemma AfterCall(c: Config, b: Breaker, e: Event, f: Event)
    ensures After(c, b, [e]) == Step(c, b, e)
    ensures After(c, b, [e] + [f]) == Step(c, Step(c, b, e), f)
  {
    assert [e][..0] == [] && ([e] + [f])[..1] == [e];
  }

  function Run(c: Config, es: seq<Event>): Breaker {
    After(c, FRESH, es)
  }

  lemma {:induction false} AfterConcat(c: Config, b: Breaker, es: seq<Event>, fs: seq<Event>)
    ensures After(c, b, es + fs) == After(c, After(c, b, es), fs)
  {
    if fs == [] {
      assert es + fs == es;
    } else {
      var n := |fs| - 1;
      assert (es + fs)[..|es| + n] == es + fs[..n];
      AfterConcat(c, b, es, fs[..n]);
    }
  }

  // ----- an open breaker stays open -----

  predicate TimesWithin(es: seq<Event>, from: int, until: int) {
    forall i :: 0 <= i < |es| ==>
      (es[i].Check? ==> es[i].now < until) && (es[i].Failure? ==> from <= es[i].now)
  }

  /** Late successes and failures, and checks before the deadline, leave the breaker open. */
  lemma {:induction false} StaysOpen(c: Config, b: Breaker, es: seq<Event>, since: int)
    requires b.phase.Open? && since <= b.openedAt && TimesWithin(es, since, since + c.openDuration)
    ensures After(c, b, es).phase.Open? && since <= After(c, b, es).openedAt
  {
    if es != [] {
      StaysOpen(c, b, es[..|es| - 1], since);
    }
  }

  predicate Monotone(es: seq<Event>) {
    forall i, j :: 0 <= i < j < |es| && !es[i].Success? && !es[j].Success? ==> es[i].now <= es[j].now
  }

  /**
   In every run: if the breaker is open after event i, which failed at time T, then every later check at a
   time before T + openDuration is refused, whatever happened in between.
   */
  lemma RefusedWhileOpen(c: Config, es: seq<Event>, i: nat, j: nat)
    requires i < j < |es| && Monotone(es)
    requires es[i].Failure? && Run(c, es[..i + 1]).phase.Open? && Run(c, es[..i + 1]).openedAt == es[i].now
    requires es[j].Check? && es[j].now < es[i].now + c.openDuration
    ensures Refuses(c, Run(c, es[..j]), es[j].now) && Run(c, es[..j + 1]).phase.Open?
  {
    var pre, mid := es[..i + 1], es[i + 1..j];
    assert es[..j] == pre + mid;
    AfterConcat(c, FRESH, pre, mid);
    forall k | 0 <= k < |mid|
      ensures (mid[k].Check? ==> mid[k].now < es[i].now + c.openDuration) && (mid[k].Failure? ==> es[i].now <= mid[k].now)
    {
      assert mid[k] == es[i + 1 + k];
    }
    StaysOpen(c, Run(c, pre), mid, es[i].now);
    assert es[..j + 1][..j] == es[..j];
  }

  // ----- the counters summarise the history -----

  function Max1(n: nat): nat {
    if n == 0 then 1 else n
  }

  /** Failures recorded since the last recorded success, or since construction. */
  function FailuresSinceSuccess(es: seq<Event>): nat {
    if es == [] then 0
    else match es[|es| - 1]
      case Check(_) => FailuresSinceSuccess(es[..|es| - 1])
      case Success => 0
      case Failure(_) => FailuresSinceSuccess(es[..|es| - 1]) + 1
  }

  /** The last event is the check that let the first call through after an open period. */
  predicate BeginsProbe(c: Config, es: seq<Event>)
    requires es != []
  {
    Run(c, es[..|es| - 1]).phase.Open? && Run(c, es).phase.HalfOpen?
  }

  /** Successes, and failures, recorded since the breaker last became half-open. */
  function ProbeSuccesses(c: Config, es: seq<Event>): nat {
    if es == [] || BeginsProbe(c, es) then 0
    else ProbeSuccesses(c, es[..|es| - 1]) + (if es[|es| - 1].Success? then 1 else 0)
  }

  function ProbeFailures(c: Config, es: seq<Event>): nat {
    if es == [] || BeginsProbe(c, es) then 0
    else ProbeFailures(c, es[..|es| - 1]) + (if es[|es| - 1].Failure? then 1 else 0)
  }

  /** What the counters are worth after every run; below their thresholds, they cannot wrap. */
  ghost predicate CountersExact(c: Config, es: seq<Event>) {
    var b := Run(c, es);
    && b.failures < Max1(c.failureThreshold) < WORD
    && (b.phase.Closed? ==> b.failures == FailuresSinceSuccess(es))
    && (b.phase.HalfOpen? ==>
          b.successes == ProbeSuccesses(c, es) < Max1(c.successThreshold) < WORD && ProbeFailures(c, es) == 0)
  }

  lemma RunSnoc(c: Config, es: seq<Event>, e: Event)
    ensures Run(c, es + [e]) == Step(c, Run(c, es), e)
  {
    assert (es + [e])[..|es|] == es;
  }

  lemma {:induction false} CountersSummariseHistory(c: Config, es: seq<Event>)
    requires ValidConfig(c)
    ensures CountersExact(c, es)
  {
    if es != [] {
      hide CountersExact;
      var init, e := es[..|es| - 1], es[|es| - 1];
      assert es == init + [e];
      CountersSummariseHistory(c, init);
      match e
      case Check(_) => CountersCheck(c, init, e);
      case Success => CountersSuccess(c, init, e);
      case Failure(_) => CountersFailure(c, init, e);
    }
  }

  lemma CountersCheck(c: Config, es: seq<Event>, e: Event)
    requires ValidConfig(c) && CountersExact(c, es) && e.Check?
    ensures CountersExact(c, es + [e])
  {
    hide Run;
    RunSnoc(c, es, e);
    assert (es + [e])[..|es|] == es;
  }

  lemma CountersSuccess(c: Config, es: seq<Event>, e: Event)
    requires ValidConfig(c) && CountersExact(c, es) && e.Success?
    ensures CountersExact(c, es + [e])
  {
    hide Run;
    RunSnoc(c, es, e);
    assert (es + [e])[..|es|] == es;
  }

  lemma CountersFailure(c: Config, es: seq<Event>, e: Event)
    requires ValidConfig(c) && CountersExact(c, es) && e.Failure?
    ensures CountersExact(c, es + [e])
  {
    hide Run;
    RunSnoc(c, es, e);
    assert (es + [e])[..|es|] == es;
  }

  /** Neither 32-bit counter ever wraps: every increment of a run is the exact one. */
  lemma CountersNeverWrap(c: Config, es: seq<Event>)
    requires ValidConfig(c)
    ensures var b := Run(c, es);
            && (b.failures + 1) % WORD == b.failures + 1
            && (b.phase.HalfOpen? ==> (b.successes + 1) % WORD == b.successes + 1)
  {
    hide Run;
    CountersSummariseHistory(c, es);
  }

  /** A closed breaker opens exactly on the failure that completes a row of failures of threshold length. */
  lemma OpensExactly(c: Config, es: seq<Event>, e: Event)
    requires ValidConfig(c) && Run(c, es).phase.Closed?
    ensures Run(c, es + [e]).phase.Open? <==> e.Failure? && FailuresSinceSuccess(es + [e]) == Max1(c.failureThreshold)
    ensures Run(c, es + [e]).phase.Open? ==> Run(c, es + [e]).openedAt == e.now
    ensures !Run(c, es + [e]).phase.HalfOpen?
  {
    hide After, Run;
    RunSnoc(c, es, e);
    assert (es + [e])[..|es|] == es;
    CountersSummariseHistory(c, es);
  }

  /**
   A half-open breaker closes exactly on the success that completes the required number of successes
   since it became half-open, none of them interrupted by a failure; any failure opens it again.
   */
  lemma ClosesExactly(c: Config, es: seq<Event>, e: Event)
    requires ValidConfig(c) && Run(c, es).phase.HalfOpen?
    ensures Run(c, es + [e]).phase.Closed? <==> e.Success? && ProbeSuccesses(c, es + [e]) == Max1(c.successThreshold)
    ensures Run(c, es + [e]).phase.Closed? ==> ProbeFailures(c, es + [e]) == 0
    ensures Run(c, es + [e]).phase.Open? <==> e.Failure?
    ensures e.Failure? ==> Run(c, es + [e]).openedAt == e.now
  {
    hide After, Run;
    RunSnoc(c, es, e);
    assert (es + [e])[..|es|] == es;
    CountersSummariseHistory(c, es);
  }

  /** A new breaker stays closed as long as no row of failures reaches the threshold. */
  lemma {:induction false} StaysClosed(c: Config, es: seq<Event>)
    requires ValidConfig(c)
    requires forall k :: 0 <= k <= |es| ==> FailuresSinceSuccess(es[..k]) < Max1(c.failureThreshold)
    ensures Run(c, es).phase.Closed?
  {
    if es != [] {
      hide FailuresSinceSuccess, After, Run;
      var n := |es| - 1;
      assert forall k :: 0 <= k <= n ==> es[..n][..k] == es[..k];
      StaysClosed(c, es[..n]);
      assert es == es[..n] + [es[n]] && es[..n + 1] == es;
      OpensExactly(c, es[..n], es[n]);
    } else {
      RunEmpty(c);
    }
  }

  // ----- the open phase, read off the history -----

  /**
   Event i is the failure that began the current open period: since then every check came too early, and no
   row of failures without a success has reached the threshold again.
   */
  ghost predicate OpenedBy(c: Config, es: seq<Event>, i: nat) {
    && i < |es| && es[i].Failure?
    && Run(c, es).phase.Open? && Run(c, es).openedAt == es[i].now
    && Run(c, es).failures == FailuresSinceSuccess(es[i + 1..]) < Max1(c.failureThreshold)
    && forall k :: i < k < |es| && es[k].Check? ==> es[k].now < es[i].now + c.openDuration
  }

  lemma SuffixSnoc(es: seq<Event>, i: nat, e: Event)
    requires i < |es|
    ensures (es + [e])[i + 1..] == es[i + 1..] + [e]
    ensures FailuresSinceSuccess(es[i + 1..] + [e])
            == if e.Success? then 0 else FailuresSinceSuccess(es[i + 1..]) + (if e.Failure? then 1 else 0)
  {
    assert (es[i + 1..] + [e])[..|es| - i - 1] == es[i + 1..];
  }

  /** An event of the open phase: it ends on a check after the open period; a failure restarts the period if it completes a row. */
  lemma OpenStep(c: Config, es: seq<Event>, i: nat, e: Event)
    requires ValidConfig(c) && OpenedBy(c, es, i)
    ensures var b := Run(c, es + [e]);
            && !b.phase.Closed?
            && (b.phase.HalfOpen? <==> e.Check? && e.now >= es[i].now + c.openDuration)
            && (b.phase.Open? ==>
                  if e.Failure? && FailuresSinceSuccess(es[i + 1..] + [e]) == Max1(c.failureThreshold)
                  then b.openedAt == e.now && OpenedBy(c, es + [e], |es|)
                  else b.openedAt == es[i].now && OpenedBy(c, es + [e], i))
  {
    hide After, Run, FailuresSinceSuccess;
    RunSnoc(c, es, e);
    SuffixSnoc(es, i, e);
    assert (es + [e])[|es| + 1..] == [];
    NoFailures();
    var es' := es + [e];
    assert forall k :: 0 <= k < |es| ==> es'[k] == es[k];
  }

  lemma NoFailures()
    ensures FailuresSinceSuccess([]) == 0
  {}

  /** Whenever the breaker is open, some failure of the history began the current open period. */
  lemma {:induction false} OpenExplained(c: Config, es: seq<Event>)
    requires ValidConfig(c) && Run(c, es).phase.Open?
    ensures exists i :: OpenedBy(c, es, i)
  {
    hide After, OpenedBy;
    assert es != [] by { RunEmpty(c); }
    var n, e := |es| - 1, es[|es| - 1];
    var init := es[..n];
    assert es == init + [e];
    if Run(c, init).phase.Open? {
      OpenExplained(c, init);
      var i :| OpenedBy(c, init, i);
      OpenStep(c, init, i, e);
    } else {
      OpensHere(c, init, e);
    }
  }

  lemma RunEmpty(c: Config)
    ensures Run(c, []).phase.Closed?
  {}

  lemma OpensHere(c: Config, es: seq<Event>, e: Event)
    requires ValidConfig(c) && !Run(c, es).phase.Open? && Run(c, es + [e]).phase.Open?
    ensures OpenedBy(c, es + [e], |es|)
  {
    hide After, Run, FailuresSinceSuccess;
    RunSnoc(c, es, e);
    assert (es + [e])[|es| + 1..] == [];
    NoFailures();
  }
}
