/**
 Retrying with capped exponential backoff and jitter, and its composition with the circuit breaker.

 Delays are whole milliseconds and the multiplier is a real number. What the callable does on each attempt,
 whether the deadline has passed at each reading, and the random draws are given as functions of the attempt.
 */
module Retrying {
  import CB = CircuitBreaking

  datatype Jitter = NoJitter | Full | Equal

  datatype Config = Config(maxAttempts: nat, initialDelay: int, multiplier: real, maxDelay: int, jitter: Jitter)

  datatype Attempt<+V, +E> = Value(v: V) | Fault(e: E)

  datatype Result<+V, +E> =
    | Returned(v: V)
    | Propagated(e: E)
    | DeadlineBefore(attempt: nat)
    | DeadlineAfter(attempt: nat)
    | Exhausted

  // ----- delays -----

  /** Conversion of a floating-point number to an integer: towards zero. */
  function Truncate(x: real): int {
    if x >= 0.0 then x.Floor else -((-x).Floor)
  }

  function Scaled(delay: int, multiplier: real): int {
    Truncate(delay as real * multiplier)
  }

  function NextDelay(cfg: Config, delay: int): int {
    var next := Scaled(delay, cfg.multiplier);
    if next < cfg.maxDelay then next else cfg.maxDelay
  }

  /** The delay before jitter of the k-th sleep. */
  function Delay(cfg: Config, k: nat): int {
    if k == 0 then cfg.initialDelay else NextDelay(cfg, Delay(cfg, k - 1))
  }

  /** `apply_jitter`, given the value drawn. */
  function Jittered(jitter: Jitter, base: int, draw: int): int {
    if jitter.NoJitter? || base == 0 then base
    else if jitter.Full? then draw
    else base / 2 + draw
  }

  /** The range that the draw is made from. */
  predicate InRange(jitter: Jitter, base: int, draw: int) {
    jitter.NoJitter? || base == 0 || (0 <= draw <= if jitter.Full? then base else base / 2)
  }

  // ----- the loop -----

  /** The callable failed on attempt k in a way that is retried, and no deadline intervened. */
  ghost predicate Retried<V, E>(k: nat, fn: nat -> Attempt<V, E>, retryable: E -> bool, before: nat -> bool, after: nat -> bool) {
    !before(k) && fn(k).Fault? && retryable(fn(k).e) && !after(k)
  }

  /**
   What a run of the loop comes to: every attempt but the last was retried, and the last one explains
   the result. `calls` is the number of times the callable ran, `naps` the number of sleeps.
   */
  ghost predicate Explains<V, E>(max: nat, fn: nat -> Attempt<V, E>, retryable: E -> bool, before: nat -> bool,
                                 after: nat -> bool, r: Result<V, E>, calls: nat, naps: nat)
  {
    && calls <= max
    && (forall k :: 0 <= k < calls - 1 ==> Retried(k, fn, retryable, before, after))
    && match r
       case Returned(v) => calls > 0 && !before(calls - 1) && fn(calls - 1) == Value(v) && naps == calls - 1
       case Propagated(e) =>
         calls > 0 && !before(calls - 1) && fn(calls - 1) == Fault(e) && !retryable(e) && naps == calls - 1
       case DeadlineBefore(k) =>
         k == calls == naps && calls < max && before(calls) && (calls > 0 ==> Retried(calls - 1, fn, retryable, before, after))
       case DeadlineAfter(k) =>
         && k + 1 == calls < max && naps == k && !before(k) && after(k)
         && fn(k).Fault? && retryable(fn(k).e)
       case Exhausted =>
         && calls == max && naps == Naps(max, max)
         && (calls > 0 ==> !before(calls - 1) && fn(calls - 1).Fault? && retryable(fn(calls - 1).e))
  }

  /** `with_retry`. Without a filter `retryable` is always true, without a deadline `before` and `after` never. */
  method WithRetry<V, E>(cfg: Config, fn: nat -> Attempt<V, E>, retryable: E -> bool, before: nat -> bool,
                         after: nat -> bool, draw: nat -> int)
    returns (r: Result<V, E>, calls: nat, sleeps: seq<int>)
    ensures Explains(cfg.maxAttempts, fn, retryable, before, after, r, calls, |sleeps|)
    ensures forall k :: 0 <= k < |sleeps| ==> sleeps[k] == Jittered(cfg.jitter, Delay(cfg, k), draw(k))
    ensures cfg.jitter.NoJitter? ==> forall k :: 0 <= k < |sleeps| ==> sleeps[k] == Delay(cfg, k)
    ensures cfg.jitter.Full? ==> forall k :: 0 <= k < |sleeps| ==> sleeps[k] == if Delay(cfg, k) == 0 then 0 else draw(k)
    ensures cfg.jitter.Equal? ==>
              forall k :: 0 <= k < |sleeps| ==> sleeps[k] == if Delay(cfg, k) == 0 then 0 else Delay(cfg, k) / 2 + draw(k)
  {
    JitterExactly(cfg, draw);
    hide NextDelay, Delay, Jittered, Explains, Failing;
    DelayStep(cfg, 0);
    calls, sleeps := 0, [];
    var delay := cfg.initialDelay;
    for attempt := 0 to cfg.maxAttempts
      invariant calls == attempt
      invariant |sleeps| == Naps(cfg.maxAttempts, attempt)
      invariant attempt < cfg.maxAttempts ==> delay == Delay(cfg, attempt)
      invariant forall k :: 0 <= k < attempt ==> Failing(cfg.maxAttempts, k, fn, retryable, before, after)
      invariant forall k :: 0 <= k < |sleeps| ==> sleeps[k] == Jittered(cfg.jitter, Delay(cfg, k), draw(k))
    {
      if before(attempt) {
        Ended(cfg.maxAttempts, fn, retryable, before, after, attempt);
        return DeadlineBefore(attempt), calls, sleeps;
      }
      calls := calls + 1;
      Ended(cfg.maxAttempts, fn, retryable, before, after, attempt);
      match fn(attempt)
      case Value(v) => return Returned(v), calls, sleeps;
      case Fault(e) =>
        if !retryable(e) {
          return Propagated(e), calls, sleeps;
        }
        if attempt + 1 < cfg.maxAttempts {
          if after(attempt) {
            return DeadlineAfter(attempt), calls, sleeps;
          }
          sleeps := sleeps + [Jittered(cfg.jitter, delay, draw(attempt))];
          DelayStep(cfg, attempt);
          delay := NextDelay(cfg, delay);
        }
    }
    AllFailed(cfg.maxAttempts, fn, retryable, before, after);
    r := Exhausted;
  }

  lemma JitterExactly(cfg: Config, draw: nat -> int)
    ensures forall k: nat :: Jittered(cfg.jitter, Delay(cfg, k), draw(k)) ==
              if cfg.jitter.NoJitter? || Delay(cfg, k) == 0 then Delay(cfg, k)
              else if cfg.jitter.Full? then draw(k)
              else Delay(cfg, k) / 2 + draw(k)
  {
    hide Delay;
  }

  lemma DelayStep(cfg: Config, k: nat)
    ensures Delay(cfg, 0) == cfg.initialDelay && Delay(cfg, k + 1) == NextDelay(cfg, Delay(cfg, k))
  {}

  /** Attempt k failed and the loop went on. */
  ghost predicate Failing<V, E>(max: nat, k: nat, fn: nat -> Attempt<V, E>, retryable: E -> bool, before: nat -> bool, after: nat -> bool) {
    !before(k) && fn(k).Fault? && retryable(fn(k).e) && (k + 1 < max ==> !after(k))
  }

  function Naps(max: nat, attempts: nat): nat {
    if attempts == max && max > 0 then max - 1 else attempts
  }

  /** How the loop may end on attempt k when all earlier attempts failed. */
  lemma Ended<V, E>(max: nat, fn: nat -> Attempt<V, E>, retryable: E -> bool, before: nat -> bool, after: nat -> bool, k: nat)
    requires k < max && forall i :: 0 <= i < k ==> Failing(max, i, fn, retryable, before, after)
    ensures before(k) ==> Explains(max, fn, retryable, before, after, DeadlineBefore(k), k, k)
    ensures !before(k) && fn(k).Value? ==> Explains(max, fn, retryable, before, after, Returned(fn(k).v), k + 1, k)
    ensures !before(k) && fn(k).Fault? && !retryable(fn(k).e) ==>
              Explains(max, fn, retryable, before, after, Propagated(fn(k).e), k + 1, k)
    ensures !before(k) && fn(k).Fault? && retryable(fn(k).e) && after(k) && k + 1 < max ==>
              Explains(max, fn, retryable, before, after, DeadlineAfter(k), k + 1, k)
    ensures !before(k) && fn(k).Fault? && retryable(fn(k).e) && (k + 1 < max ==> !after(k)) ==>
              Failing(max, k, fn, retryable, before, after)
  {
    assert forall i :: 0 <= i < k ==> Failing(max, i, fn, retryable, before, after) ==> Retried(i, fn, retryable, before, after);
    assert k > 0 ==> Failing(max, k - 1, fn, retryable, before, after);
  }

  lemma AllFailed<V, E>(max: nat, fn: nat -> Attempt<V, E>, retryable: E -> bool, before: nat -> bool, after: nat -> bool)
    requires forall i :: 0 <= i < max ==> Failing(max, i, fn, retryable, before, after)
    ensures Explains(max, fn, retryable, before, after, Exhausted, max, Naps(max, max))
  {
    assert forall i :: 0 <= i < max - 1 ==> Failing(max, i, fn, retryable, before, after) ==> Retried(i, fn, retryable, before, after);
    assert max > 0 ==> Failing(max, max - 1, fn, retryable, before, after);
  }

  /** The explanation leaves no choice: result, calls and sleeps are determined by what the attempts do. */
  lemma ExplanationUnique<V, E>(max: nat, fn: nat -> Attempt<V, E>, retryable: E -> bool, before: nat -> bool,
                                after: nat -> bool, r: Result<V, E>, calls: nat, naps: nat,
                                r': Result<V, E>, calls': nat, naps': nat)
    requires Explains(max, fn, retryable, before, after, r, calls, naps)
    requires Explains(max, fn, retryable, before, after, r', calls', naps')
    ensures r == r' && calls == calls' && naps == naps'
  {
    if calls < calls' {
      NoLongerRun(max, fn, retryable, before, after, r, calls, naps, r', calls', naps');
    } else if calls' < calls {
      NoLongerRun(max, fn, retryable, before, after, r', calls', naps', r, calls, naps);
    }
  }

  lemma NotLast<V, E>(max: nat, fn: nat -> Attempt<V, E>, retryable: E -> bool, before: nat -> bool,
                      after: nat -> bool, r: Result<V, E>, calls: nat, naps: nat, k: nat)
    requires Explains(max, fn, retryable, before, after, r, calls, naps) && k < calls
    ensures !before(k) && (k > 0 ==> Retried(k - 1, fn, retryable, before, after))
  {
    assert k < calls - 1 ==> Retried(k, fn, retryable, before, after);
  }

  lemma NoLongerRun<V, E>(max: nat, fn: nat -> Attempt<V, E>, retryable: E -> bool, before: nat -> bool,
                          after: nat -> bool, r: Result<V, E>, calls: nat, naps: nat,
                          r': Result<V, E>, calls': nat, naps': nat)
    requires Explains(max, fn, retryable, before, after, r, calls, naps)
    requires Explains(max, fn, retryable, before, after, r', calls', naps')
    ensures calls >= calls'
  {
    if calls < calls' {
      NotLast(max, fn, retryable, before, after, r', calls', naps', calls);
    }
  }

  // ----- the loop as a recursion -----

  /** Result, calls and sleeps of the loop from attempt k on. */
  function Loop<V, E>(max: nat, fn: nat -> Attempt<V, E>, retryable: E -> bool, before: nat -> bool,
                      after: nat -> bool, k: nat): (Result<V, E>, nat, nat)
    requires k <= max
    decreases max - k
  {
    if k == max then (Exhausted, k, k)
    else if before(k) then (DeadlineBefore(k), k, k)
    else
      match fn(k)
      case Value(v) => (Returned(v), k + 1, k)
      case Fault(e) =>
        if !retryable(e) then (Propagated(e), k + 1, k)
        else if k + 1 == max then (Exhausted, k + 1, k)
        else if after(k) then (DeadlineAfter(k), k + 1, k)
        else Loop(max, fn, retryable, before, after, k + 1)
  }

  lemma {:induction false} LoopExplains<V, E>(max: nat, fn: nat -> Attempt<V, E>, retryable: E -> bool, before: nat -> bool,
                                              after: nat -> bool, k: nat)
    requires k < max || max == 0 == k
    requires forall i :: 0 <= i < k ==> Failing(max, i, fn, retryable, before, after)
    ensures var (r, calls, naps) := Loop(max, fn, retryable, before, after, k);
            Explains(max, fn, retryable, before, after, r, calls, naps)
    decreases max - k
  {
    hide Explains, Failing;
    if k == max {
      AllFailed(max, fn, retryable, before, after);
    } else {
      Ended(max, fn, retryable, before, after, k);
      if !before(k) && fn(k).Fault? && retryable(fn(k).e) {
        if k + 1 == max {
          AllFailed(max, fn, retryable, before, after);
        } else if !after(k) {
          LoopExplains(max, fn, retryable, before, after, k + 1);
        }
      }
    }
  }

  /** The explanation holds of exactly what the recursion computes. */
  lemma ExplainsExactly<V, E>(max: nat, fn: nat -> Attempt<V, E>, retryable: E -> bool, before: nat -> bool,
                              after: nat -> bool, r: Result<V, E>, calls: nat, naps: nat)
    ensures Explains(max, fn, retryable, before, after, r, calls, naps) <==>
              (r, calls, naps) == Loop(max, fn, retryable, before, after, 0)
  {
    LoopExplains(max, fn, retryable, before, after, 0);
    var (r', calls', naps') := Loop(max, fn, retryable, before, after, 0);
    hide Explains, Loop;
    if Explains(max, fn, retryable, before, after, r, calls, naps) {
      ExplanationUnique(max, fn, retryable, before, after, r, calls, naps, r', calls', naps');
    }
  }

  // ----- backoff -----

  function Power(m: nat, k: nat): nat {
    if k == 0 then 1 else m * Power(m, k - 1)
  }

  function Min(a: int, b: int): int {
    if a < b then a else b
  }

  lemma ScaledWhole(d: int, m: int)
    requires d >= 0 && m >= 0
    ensures Scaled(d, m as real) == d * m
  {
    assert d as real * m as real == (d * m) as real;
    MulNonNegative(d, m);
  }

  lemma MulNonNegative(a: int, b: int)
    requires a >= 0 && b >= 0
    ensures a * b >= 0
  {}

  /** For a whole multiplier the delays are the capped geometric sequence. */
  lemma {:induction false} WholeMultiplier(cfg: Config, m: nat, k: nat)
    requires m >= 1 && cfg.multiplier == m as real && 0 <= cfg.initialDelay <= cfg.maxDelay
    ensures Delay(cfg, k) == Min(cfg.initialDelay * Power(m, k), cfg.maxDelay)
  {
    if k > 0 {
      hide NextDelay, Delay, Power;
      var d, p := Delay(cfg, k - 1), cfg.initialDelay * Power(m, k - 1);
      WholeMultiplier(cfg, m, k - 1);
      PowerNext(cfg.initialDelay, m, k);
      MulNonNegative(cfg.initialDelay, Power(m, k - 1));
      DelayStep(cfg, k - 1);
      NextWhole(cfg, d, m);
      CappedProduct(p, cfg.maxDelay, m);
    } else {
      assert cfg.initialDelay * Power(m, 0) == cfg.initialDelay;
    }
  }

  lemma NextWhole(cfg: Config, d: int, m: nat)
    requires d >= 0 && cfg.multiplier == m as real
    ensures NextDelay(cfg, d) == Min(d * m, cfg.maxDelay)
  {
    hide Scaled;
    ScaledWhole(d, m);
  }

  lemma PowerNext(i: int, m: nat, k: nat)
    requires k > 0
    ensures i * Power(m, k) == i * Power(m, k - 1) * m
  {
    assert i * (m * Power(m, k - 1)) == i * Power(m, k - 1) * m;
  }

  /** Capping before multiplying by at least one makes no difference to the capped product. */
  lemma CappedProduct(p: int, cap: int, m: nat)
    requires 0 <= p && 0 <= cap && m >= 1
    ensures Min(Min(p, cap) * m, cap) == Min(p * m, cap)
  {
    if p >= cap {
      assert cap * m == cap + cap * (m - 1);
      MulNonNegative(cap, m - 1);
      assert p * m == p + p * (m - 1);
      MulNonNegative(p, m - 1);
    }
  }

  /** For any multiplier of at least one the delays never shrink and never exceed the cap. */
  lemma {:induction false} DelaysGrow(cfg: Config, k: nat)
    requires cfg.multiplier >= 1.0 && 0 <= cfg.initialDelay <= cfg.maxDelay
    ensures 0 <= Delay(cfg, k) <= Delay(cfg, k + 1) <= cfg.maxDelay
  {
    hide NextDelay, Delay;
    DelayStep(cfg, k);
    if k > 0 {
      DelaysGrow(cfg, k - 1);
    }
    NextGrows(cfg, Delay(cfg, k));
  }

  lemma NextGrows(cfg: Config, d: int)
    requires cfg.multiplier >= 1.0 && 0 <= d <= cfg.maxDelay
    ensures d <= NextDelay(cfg, d) <= cfg.maxDelay
  {
    hide Scaled;
    ScaledGrows(d, cfg.multiplier);
  }

  lemma ScaledGrows(d: int, m: real)
    requires d >= 0 && m >= 1.0
    ensures Scaled(d, m) >= d
  {
    assert d as real * m == d as real + d as real * (m - 1.0);
    NonNegativeProduct(d as real, m - 1.0);
  }

  lemma NonNegativeProduct(a: real, b: real)
    requires a >= 0.0 && b >= 0.0
    ensures a * b >= 0.0
  {}

  lemma ScaledNonNegative(d: int, m: real)
    requires d >= 0 && m >= 0.0
    ensures Scaled(d, m) >= 0
  {
    NonNegativeProduct(d as real, m);
  }

  /** Non-negative settings give non-negative delays; after the first, all are capped. */
  lemma {:induction false} DelayRange(cfg: Config, k: nat)
    requires cfg.multiplier >= 0.0 && 0 <= cfg.initialDelay && 0 <= cfg.maxDelay
    ensures 0 <= Delay(cfg, k) && (k > 0 ==> Delay(cfg, k) <= cfg.maxDelay)
  {
    if k > 0 {
      DelayRange(cfg, k - 1);
      hide Scaled;
      ScaledNonNegative(Delay(cfg, k - 1), cfg.multiplier);
    }
  }

  /**
   Each delay follows from the one before, whatever the multiplier: it is the integer part of the product,
   or the cap if the product reaches it.
   */
  lemma DelayFollows(cfg: Config, k: nat)
    requires cfg.multiplier >= 0.0 && 0 <= cfg.initialDelay && 0 <= cfg.maxDelay
    ensures Delay(cfg, 0) == cfg.initialDelay
    ensures var product, next := Delay(cfg, k) as real * cfg.multiplier, Delay(cfg, k + 1);
            if product < cfg.maxDelay as real then next as real <= product < next as real + 1.0 else next == cfg.maxDelay
  {
    hide Delay, NextDelay;
    DelayRange(cfg, k);
    DelayStep(cfg, k);
    NextFollows(cfg, Delay(cfg, k), Delay(cfg, k) as real * cfg.multiplier);
  }

  lemma NextFollows(cfg: Config, d: int, product: real)
    requires cfg.multiplier >= 0.0 && d >= 0 && product == d as real * cfg.multiplier
    ensures var next := NextDelay(cfg, d);
            if product < cfg.maxDelay as real then next as real <= product < next as real + 1.0 else next == cfg.maxDelay
  {
    NonNegativeProduct(d as real, cfg.multiplier);
    assert Scaled(d, cfg.multiplier) == product.Floor;
    hide Scaled;
    FloorBelow(product, cfg.maxDelay);
  }

  lemma FloorBelow(x: real, cap: int)
    requires x >= 0.0
    ensures x.Floor as real <= x < x.Floor as real + 1.0
    ensures x < cap as real <==> x.Floor < cap
  {}

  /** The sleeps of a run without jitter and with a whole multiplier: a geometric sequence up to the cap. */
  lemma PlainSleeps(cfg: Config, m: nat, draw: nat -> int, sleeps: seq<int>, k: nat)
    requires cfg.jitter.NoJitter? && m >= 1 && cfg.multiplier == m as real && 0 <= cfg.initialDelay <= cfg.maxDelay
    requires forall i :: 0 <= i < |sleeps| ==> sleeps[i] == Jittered(cfg.jitter, Delay(cfg, i), draw(i))
    requires k < |sleeps|
    ensures sleeps[k] == Min(cfg.initialDelay * Power(m, k), cfg.maxDelay)
  {
    hide Delay;
    WholeMultiplier(cfg, m, k);
  }

  /** A jittered sleep never exceeds the delay; equal jitter keeps at least half of it. */
  lemma JitterRange(jitter: Jitter, base: int, draw: int)
    requires base >= 0 && InRange(jitter, base, draw)
    ensures 0 <= Jittered(jitter, base, draw) <= base
    ensures jitter.Equal? ==> base / 2 <= Jittered(jitter, base, draw)
  {}

  function Total(sleeps: seq<int>): int {
    if sleeps == [] then 0 else Total(sleeps[..|sleeps| - 1]) + sleeps[|sleeps| - 1]
  }

  /** The sleeps of a whole run sum to at most the first delay plus one cap for every further one. */
  lemma {:induction false} TotalSleep(cfg: Config, draw: nat -> int, sleeps: seq<int>)
    requires cfg.multiplier >= 0.0 && 0 <= cfg.initialDelay && 0 <= cfg.maxDelay
    requires forall k :: 0 <= k < |sleeps| ==> sleeps[k] == Jittered(cfg.jitter, Delay(cfg, k), draw(k))
    requires forall k :: 0 <= k < |sleeps| ==> InRange(cfg.jitter, Delay(cfg, k), draw(k))
    ensures Total(sleeps) <= if |sleeps| == 0 then 0 else cfg.initialDelay + (|sleeps| - 1) * cfg.maxDelay
  {
    if sleeps != [] {
      hide Delay, NextDelay, InRange, Jittered;
      var n := |sleeps| - 1;
      TotalSleep(cfg, draw, sleeps[..n]);
      DelayRange(cfg, n);
      JitterRange(cfg.jitter, Delay(cfg, n), draw(n));
      DelayStep(cfg, 0);
      assert n > 0 ==> n * cfg.maxDelay == (n - 1) * cfg.maxDelay + cfg.maxDelay;
    }
  }

  /** Whatever the result, a run of n >= 2 attempts sleeps at most the first delay plus n - 2 caps. */
  lemma SleepBudget<V, E>(cfg: Config, fn: nat -> Attempt<V, E>, retryable: E -> bool, before: nat -> bool,
                          after: nat -> bool, draw: nat -> int, r: Result<V, E>, calls: nat, sleeps: seq<int>)
    requires cfg.maxAttempts >= 2 && cfg.multiplier >= 0.0 && 0 <= cfg.initialDelay && 0 <= cfg.maxDelay
    requires Explains(cfg.maxAttempts, fn, retryable, before, after, r, calls, |sleeps|)
    requires forall k :: 0 <= k < |sleeps| ==> sleeps[k] == Jittered(cfg.jitter, Delay(cfg, k), draw(k))
    requires forall k :: 0 <= k < |sleeps| ==> InRange(cfg.jitter, Delay(cfg, k), draw(k))
    ensures Total(sleeps) <= cfg.initialDelay + (cfg.maxAttempts - 2) * cfg.maxDelay
  {
    hide Delay, InRange, Jittered, Total;
    TotalSleep(cfg, draw, sleeps);
    assert |sleeps| <= cfg.maxAttempts - 1;
    if sleeps == [] {
      MulNonNegative(cfg.maxAttempts - 2, cfg.maxDelay);
    } else {
      MulNonNegative(cfg.maxAttempts - 1 - |sleeps|, cfg.maxDelay);
    }
  }

  // ----- retrying through a circuit breaker -----

  /** Why a call through the breaker threw: it was refused, or the callable itself failed. */
  datatype Cause = CircuitOpen | CallFailed

  /** The breaker after k attempts of a callable that always fails, checked at clock(2k), failing at clock(2k + 1). */
  function BreakerAfter(c: CB.Config, clock: nat -> int, k: nat): CB.Breaker {
    if k == 0 then CB.FRESH
    else
      var b := BreakerAfter(c, clock, k - 1);
      CB.After(c, b, CB.CallEvents(c, b, false, clock(2 * k - 2), clock(2 * k - 1)))
  }

  predicate Admitted(c: CB.Config, clock: nat -> int, k: nat) {
    !CB.Refuses(c, BreakerAfter(c, clock, k), clock(2 * k))
  }

  /** How often the callable itself ran in the first n attempts. */
  function Invocations(c: CB.Config, clock: nat -> int, n: nat): nat {
    if n == 0 then 0 else Invocations(c, clock, n - 1) + (if Admitted(c, clock, n - 1) then 1 else 0)
  }

  /** The failure that opens the breaker is that of attempt Threshold - 1; a threshold of zero acts as one. */
  function Threshold(c: CB.Config): nat {
    CB.Max1(c.failureThreshold)
  }

  /** Attempt k comes after the breaker opened, and its check after the open period. */
  predicate ProbesAt(c: CB.Config, clock: nat -> int, k: nat) {
    k >= Threshold(c) && clock(2 * k) >= clock(2 * Threshold(c) - 1) + c.openDuration
  }

  /** None of the first n attempts finds the open period over. */
  ghost predicate NoProbe(c: CB.Config, clock: nat -> int, n: nat) {
    forall k :: 0 <= k < n ==> !ProbesAt(c, clock, k)
  }

  /**
   With any clock, the breaker is closed and has counted every attempt before the threshold, and is open
   from then on; it is still in the open period that attempt Threshold - 1 began unless an attempt probed.
   */
  lemma {:induction false} BreakerUnderRetry(c: CB.Config, clock: nat -> int, k: nat)
    requires c.failureThreshold < CB.WORD
    ensures var b := BreakerAfter(c, clock, k);
            && (k < Threshold(c) ==> b.phase.Closed? && b.failures == k)
            && (k >= Threshold(c) ==> b.phase.Open? && b.failures == 0)
            && (k >= Threshold(c) && NoProbe(c, clock, k) ==> b.openedAt == clock(2 * Threshold(c) - 1))
  {
    if k > 0 {
      hide CB.After, CB.CallEvents, CB.Refuses;
      var b := BreakerAfter(c, clock, k - 1);
      BreakerUnderRetry(c, clock, k - 1);
      FailingCall(c, b, clock(2 * k - 2), clock(2 * k - 1));
      if k > Threshold(c) && NoProbe(c, clock, k) {
        assert !ProbesAt(c, clock, k - 1);
        RefusedBefore(c, b, clock(2 * (k - 1)));
      }
    }
  }

  lemma RefusedBefore(c: CB.Config, b: CB.Breaker, now: int)
    requires b.phase.Open?
    ensures CB.Refuses(c, b, now) <==> now < b.openedAt + c.openDuration
  {}

  /** One failing call counts through a closed breaker; through an open one it is refused or opens it anew. */
  lemma FailingCall(c: CB.Config, b: CB.Breaker, checked: int, failed: int)
    requires c.failureThreshold < CB.WORD
    ensures var b' := CB.After(c, b, CB.CallEvents(c, b, false, checked, failed));
            && (CB.Refuses(c, b, checked) ==> b' == b)
            && (b.phase.Closed? && b.failures + 1 < Threshold(c) ==> b' == b.(failures := b.failures + 1))
            && (b.phase.Closed? && b.failures + 1 == Threshold(c) ==> b' == b.(phase := CB.Open, failures := 0, openedAt := failed))
            && (b.phase.Open? && b.failures == 0 ==> b'.phase.Open? && b'.failures == 0)
  {
    hide CB.After;
    CB.AfterCall(c, b, CB.Check(checked), CB.Failure(failed));
    assert [CB.Check(checked)] + [] == [CB.Check(checked)];
  }

  /** Before the threshold every attempt runs the callable; after it none does before one probes, and that one does. */
  lemma AdmittedExactly(c: CB.Config, clock: nat -> int, k: nat)
    requires c.failureThreshold < CB.WORD && NoProbe(c, clock, k)
    ensures Admitted(c, clock, k) <==> k < Threshold(c) || ProbesAt(c, clock, k)
  {
    hide BreakerAfter;
    BreakerUnderRetry(c, clock, k);
    if k >= Threshold(c) {
      RefusedBefore(c, BreakerAfter(c, clock, k), clock(2 * k));
    }
  }

  lemma {:induction false} InvocationsUnprobed(c: CB.Config, clock: nat -> int, n: nat)
    requires c.failureThreshold < CB.WORD && NoProbe(c, clock, n)
    ensures Invocations(c, clock, n) == Min(n, Threshold(c))
  {
    hide Admitted;
    if n > 0 {
      InvocationsUnprobed(c, clock, n - 1);
      AdmittedExactly(c, clock, n - 1);
      assert !ProbesAt(c, clock, n - 1);
    }
  }

  /** Once an attempt has probed, the callable has run more often than the threshold. */
  lemma {:induction false} InvocationsProbed(c: CB.Config, clock: nat -> int, n: nat)
    requires c.failureThreshold < CB.WORD && !NoProbe(c, clock, n)
    ensures Invocations(c, clock, n) > Threshold(c)
  {
    hide Admitted;
    if NoProbe(c, clock, n - 1) {
      InvocationsUnprobed(c, clock, n - 1);
      assert ProbesAt(c, clock, n - 1);
      AdmittedExactly(c, clock, n - 1);
    } else {
      InvocationsProbed(c, clock, n - 1);
    }
  }

  /**
   Retrying an always-failing callable n times through a fresh breaker, with any clock: the breaker is open
   in the end exactly when n reaches the threshold, and the callable itself runs min(n, threshold) times
   if and only if no attempt comes after the open period that the threshold's failure began.
   */
  lemma RetryThroughBreaker(c: CB.Config, clock: nat -> int, n: nat)
    requires c.failureThreshold < CB.WORD
    ensures BreakerAfter(c, clock, n).phase.Open? <==> n >= Threshold(c)
    ensures Invocations(c, clock, n) == Min(n, Threshold(c)) <==> NoProbe(c, clock, n)
  {
    hide BreakerAfter, Invocations;
    BreakerUnderRetry(c, clock, n);
    if NoProbe(c, clock, n) {
      InvocationsUnprobed(c, clock, n);
    } else {
      InvocationsProbed(c, clock, n);
    }
  }

  /** Such a run, without filter and deadline, ends exhausted after exactly n attempts. */
  lemma RetryThroughBreakerExhausts<V>(c: CB.Config, clock: nat -> int, n: nat, r: Result<V, Cause>, calls: nat, naps: nat)
    requires Explains(n, k => Fault(if Admitted(c, clock, k) then CallFailed else CircuitOpen),
                      _ => true, _ => false, _ => false, r, calls, naps)
    ensures r == Exhausted && calls == n
  {
    hide Admitted;
  }
}
