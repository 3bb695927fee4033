/**
 The lazy token bucket. Token counts and clock readings are real numbers; every locked region of the
 source is one step, and the clock reading it takes is a parameter.
 */
module RateLimiting {

  datatype Config = Config(max: real, rate: real)

  datatype Bucket = Bucket(tokens: real, last: real)

  datatype Op = Acquire(cost: real) | Peek | Reset

  datatype Event = Event(now: real, op: Op)

  /** The tokens that flow in between two clock readings. */
  function Accrued(c: Config, from: real, to: real): real {
    (to - from) * c.rate
  }

  lemma AccruedAdds(c: Config, a: real, b: real, d: real)
    ensures Accrued(c, a, b) + Accrued(c, b, d) == Accrued(c, a, d)
  {
    assert d - a == (b - a) + (d - b);
  }

  lemma AccruedSign(c: Config, a: real, b: real)
    requires c.rate >= 0.0
    ensures a <= b ==> Accrued(c, a, b) >= 0.0
    ensures Accrued(c, a, a) == 0.0
  {
    assert a - a == 0.0;
  }

  lemma AccruedNothing(c: Config, a: real)
    ensures Accrued(c, a, a) == 0.0
  {
    assert a - a == 0.0;
  }

  function Refilled(c: Config, b: Bucket, now: real): Bucket {
    var level := b.tokens + Accrued(c, b.last, now);
    Bucket(if level < c.max then level else c.max, now)
  }

  /** The tokens a step takes out: the cost of a granted request, nothing otherwise. */
  function Taken(c: Config, b: Bucket, e: Event): real {
    if e.op.Acquire? && Refilled(c, b, e.now).tokens >= e.op.cost then e.op.cost else 0.0
  }

  function Step(c: Config, b: Bucket, e: Event): Bucket {
    if e.op.Reset? then Bucket(c.max, e.now)
    else Bucket(Refilled(c, b, e.now).tokens - Taken(c, b, e), e.now)
  }

  class RateLimiter {
    const config: Config
    var tokens: real
    var lastRefill: real

    function State(): Bucket
      reads this
    {
      Bucket(tokens, lastRefill)
    }

    constructor (maxTokens: real, refillRate: real, now: real)
      ensures config == Config(maxTokens, refillRate) && State() == Bucket(maxTokens, now)
    {
      config := Config(maxTokens, refillRate);
      tokens := maxTokens;
      lastRefill := now;
    }

    method Refill(now: real)
      modifies this
      ensures State() == Refilled(config, old(State()), now)
    {
      var elapsed := now - lastRefill;
      var accrued := elapsed * config.rate;
      assert accrued == Accrued(config, lastRefill, now);
      hide Accrued;
      var level := tokens + accrued;
      tokens := if level < config.max then level else config.max;
      lastRefill := now;
    }

    method TryAcquire(cost: real, now: real) returns (ok: bool)
      modifies this
      ensures ok <==> Refilled(config, old(State()), now).tokens >= cost
      ensures tokens == Refilled(config, old(State()), now).tokens - (if ok then cost else 0.0)
      ensures State() == Step(config, old(State()), Event(now, Acquire(cost)))
    {
      Refill(now);
      if tokens < cost {
        return false;
      }
      tokens := tokens - cost;
      return true;
    }

    method AvailableTokens(now: real) returns (level: real)
      modifies this
      ensures level == Refilled(config, old(State()), now).tokens
      ensures State() == Step(config, old(State()), Event(now, Peek))
    {
      Refill(now);
      level := tokens;
    }

    method ResetToFull(now: real)
      modifies this
      ensures State() == Step(config, old(State()), Event(now, Reset))
    {
      tokens := config.max;
      lastRefill := now;
    }
  }

  // ----- runs, and the answers that callers were given -----

  /** The bucket after a run from construction at `start`. */
  function Run(c: Config, start: real, es: seq<Event>): Bucket {
    if es == [] then Bucket(c.max, start) else Step(c, Run(c, start, es[..|es| - 1]), es[|es| - 1])
  }

  /** The level that a request at `now` sees after a run. */
  function Level(c: Config, start: real, es: seq<Event>, now: real): real {
    Refilled(c, Run(c, start, es), now).tokens
  }

  /** The answer to event i of a run: whether it is a request that is granted. */
  predicate Granted(c: Config, start: real, es: seq<Event>, i: nat)
    requires i < |es|
  {
    es[i].op.Acquire? && Level(c, start, es[..i], es[i].now) >= es[i].op.cost
  }

  function GrantedCost(c: Config, start: real, es: seq<Event>, i: nat): real
    requires i < |es|
  {
    if Granted(c, start, es, i) then es[i].op.cost else 0.0
  }

  /** The costs granted from event j on. */
  function GrantedFrom(c: Config, start: real, es: seq<Event>, j: nat): real {
    if j >= |es| then 0.0
    else GrantedFrom(c, start, es[..|es| - 1], j) + GrantedCost(c, start, es, |es| - 1)
  }

  /** The costs granted from event j on, at times within [a, b]. */
  function GrantedWithin(c: Config, start: real, es: seq<Event>, j: nat, a: real, b: real): real {
    if j >= |es| then 0.0
    else
      var n := |es| - 1;
      GrantedWithin(c, start, es[..n], j, a, b) + (if a <= es[n].now <= b then GrantedCost(c, start, es, n) else 0.0)
  }

  /** The number of events up to and with the last reset. */
  function SinceReset(es: seq<Event>): (r: nat)
    ensures r <= |es|
  {
    if es == [] then 0 else if es[|es| - 1].op.Reset? then |es| else SinceReset(es[..|es| - 1])
  }

  /** When the limiter was last known to be full: at its last reset, or when it was made. */
  function FullAt(start: real, es: seq<Event>): real {
    if SinceReset(es) == 0 then start else es[SinceReset(es) - 1].now
  }

  lemma SinceResetSnoc(start: real, es: seq<Event>)
    requires es != [] && !es[|es| - 1].op.Reset?
    ensures SinceReset(es) == SinceReset(es[..|es| - 1]) && FullAt(start, es) == FullAt(start, es[..|es| - 1])
  {}

  // ----- the level in closed form -----

  function Min(x: real, y: real): real {
    if x < y then x else y
  }

  /** What is left at `now` of the allowance since time `from`: capacity and refill, minus what was granted. */
  function Left(c: Config, from: real, now: real, granted: real): real {
    c.max + (now - from) * c.rate - granted
  }

  /** The least allowance left over the windows that begin with event i or a later one, or now. */
  function LeastFrom(c: Config, start: real, es: seq<Event>, now: real, i: nat): real
    requires i <= |es|
    decreases |es| - i
  {
    if i == |es| then c.max
    else Min(Left(c, es[i].now, now, GrantedFrom(c, start, es, i)), LeastFrom(c, start, es, now, i + 1))
  }

  lemma LeftLater(c: Config, from: real, t: real, now: real, granted: real, more: real)
    ensures Left(c, from, now, granted + more) == Left(c, from, t, granted) + Accrued(c, t, now) - more
  {
    AccruedAdds(c, from, t, now);
    LeftAccrued(c, from, now, granted + more);
    LeftAccrued(c, from, t, granted);
  }

  lemma LeftAccrued(c: Config, from: real, now: real, granted: real)
    ensures Left(c, from, now, granted) == c.max + Accrued(c, from, now) - granted
  {}

  lemma GrantedSnoc(c: Config, start: real, es: seq<Event>, j: nat)
    requires j < |es|
    ensures GrantedFrom(c, start, es, j) == GrantedFrom(c, start, es[..|es| - 1], j) + GrantedCost(c, start, es, |es| - 1)
    ensures j == |es| - 1 ==> GrantedFrom(c, start, es[..|es| - 1], j) == 0.0
  {
    hide GrantedCost;
  }

  /** One more event: the windows so far take its share, and a window that begins with it is added. */
  lemma {:induction false} LeastFromSnoc(c: Config, start: real, es: seq<Event>, now: real, i: nat)
    requires i < |es|
    ensures var n := |es| - 1;
            LeastFrom(c, start, es, now, i)
            == Min(LeastFrom(c, start, es[..n], es[n].now, i) + Accrued(c, es[n].now, now) - GrantedCost(c, start, es, n), c.max)
    decreases |es| - i
  {
    hide GrantedCost, Accrued, Left, GrantedFrom;
    var n := |es| - 1;
    GrantedSnoc(c, start, es, i);
    LeftLater(c, es[i].now, es[n].now, now, GrantedFrom(c, start, es[..n], i), GrantedCost(c, start, es, n));
    if i < n {
      LeastFromSnoc(c, start, es, now, i + 1);
    } else {
      LeftNow(c, es[n].now);
    }
  }

  lemma LeftNow(c: Config, now: real)
    ensures Left(c, now, now, 0.0) == c.max
  {
    AccruedNothing(c, now);
    LeftAccrued(c, now, now, 0.0);
  }

  /** The allowance left since the limiter was last full. */
  function LeftSinceFull(c: Config, start: real, es: seq<Event>, now: real): real {
    Left(c, FullAt(start, es), now, GrantedFrom(c, start, es, SinceReset(es)))
  }

  /**
   The level a request sees, over every run: the least of the capacity and, for every earlier moment since the
   limiter was last full, of the capacity plus the refill since that moment minus what was granted since then.
   No sign or clock assumption is needed.
   */
  lemma {:induction false} LevelIsLeastAllowance(c: Config, start: real, es: seq<Event>, now: real)
    ensures Level(c, start, es, now)
            == Min(LeftSinceFull(c, start, es, now), LeastFrom(c, start, es, now, SinceReset(es)))
  {
    if es == [] || es[|es| - 1].op.Reset? {
      FreshLevel(c, start, es, now);
    } else {
      hide Accrued, Left, GrantedFrom, GrantedCost, SinceReset, FullAt, LeastFrom;
      var n, e, r := |es| - 1, es[|es| - 1], SinceReset(es);
      LevelIsLeastAllowance(c, start, es[..n], e.now);
      SinceResetSnoc(start, es);
      GrantedSnoc(c, start, es, r);
      LeftLater(c, FullAt(start, es), e.now, now, GrantedFrom(c, start, es[..n], r), GrantedCost(c, start, es, n));
      LeastFromSnoc(c, start, es, now, r);
      LevelSnoc(c, start, es, now);
    }
  }

  lemma FreshLevel(c: Config, start: real, es: seq<Event>, now: real)
    requires es == [] || es[|es| - 1].op.Reset?
    ensures Level(c, start, es, now)
            == Min(LeftSinceFull(c, start, es, now), LeastFrom(c, start, es, now, SinceReset(es)))
  {
    var at := FullAt(start, es);
    assert SinceReset(es) == |es| && Run(c, start, es) == Bucket(c.max, at);
    assert LeastFrom(c, start, es, now, |es|) == c.max && GrantedFrom(c, start, es, |es|) == 0.0;
    hide Run, Accrued, Left, SinceReset, FullAt;
    LeftAccrued(c, at, now, 0.0);
  }

  lemma LevelSnoc(c: Config, start: real, es: seq<Event>, now: real)
    requires es != [] && !es[|es| - 1].op.Reset?
    ensures var n := |es| - 1;
            Level(c, start, es, now)
            == Min(Level(c, start, es[..n], es[n].now) - GrantedCost(c, start, es, n) + Accrued(c, es[n].now, now), c.max)
  {
    hide Accrued;
  }

  /** A bound below `LeastFrom` is one below every window. */
  lemma {:induction false} LeastFromIs(c: Config, start: real, es: seq<Event>, now: real, i: nat, x: real)
    requires i <= |es|
    ensures x <= LeastFrom(c, start, es, now, i) <==>
              x <= c.max && forall j :: i <= j < |es| ==> x <= Left(c, es[j].now, now, GrantedFrom(c, start, es, j))
    decreases |es| - i
  {
    hide Left, GrantedFrom;
    if i < |es| {
      LeastFromIs(c, start, es, now, i + 1, x);
    }
  }

  /** A request is granted exactly when it fits what every window ending now has left. */
  lemma GrantedExactly(c: Config, start: real, es: seq<Event>, now: real, cost: real)
    ensures Granted(c, start, es + [Event(now, Acquire(cost))], |es|) <==>
              && cost <= c.max
              && cost <= Left(c, FullAt(start, es), now, GrantedFrom(c, start, es, SinceReset(es)))
              && forall j :: SinceReset(es) <= j < |es| ==> cost <= Left(c, es[j].now, now, GrantedFrom(c, start, es, j))
  {
    hide Level, LeastFrom, GrantedFrom, SinceReset, FullAt, Left;
    assert (es + [Event(now, Acquire(cost))])[..|es|] == es;
    LevelIsLeastAllowance(c, start, es, now);
    LeastFromIs(c, start, es, now, SinceReset(es), cost);
  }

  // ----- the rate guarantee -----

  predicate Ordered(start: real, es: seq<Event>) {
    es == [] ||
    (var n := |es| - 1;
     Ordered(start, es[..n]) && (if n == 0 then start else es[n - 1].now) <= es[n].now)
  }

  lemma {:induction false} OrderedPair(start: real, es: seq<Event>, i: nat, j: nat)
    requires Ordered(start, es) && i <= j < |es|
    ensures es[i].now <= es[j].now
  {
    var n := |es| - 1;
    if j < n {
      OrderedPair(start, es[..n], i, j);
    } else if i < n {
      OrderedPair(start, es[..n], i, n - 1);
    }
  }

  /** With non-negative settings and a clock that does not go back the count is never negative. */
  lemma {:induction false} NeverNegative(c: Config, start: real, es: seq<Event>)
    requires c.max >= 0.0 && c.rate >= 0.0 && Ordered(start, es)
    ensures 0.0 <= Run(c, start, es).tokens
    ensures Run(c, start, es).last == if es == [] then start else es[|es| - 1].now
  {
    if es != [] {
      hide Accrued;
      var n := |es| - 1;
      NeverNegative(c, start, es[..n]);
      AccruedSign(c, Run(c, start, es[..n]).last, es[n].now);
    }
  }

  /** What was granted from event i to the last one fits the allowance of that time. */
  lemma SuffixBound(c: Config, start: real, es: seq<Event>, i: nat)
    requires c.max >= 0.0 && c.rate >= 0.0 && Ordered(start, es) && SinceReset(es) <= i < |es|
    ensures GrantedFrom(c, start, es, i) <= c.max + Accrued(c, es[i].now, es[|es| - 1].now)
  {
    hide Run, LeastFrom, GrantedFrom, SinceReset, Accrued, Left;
    var now := es[|es| - 1].now;
    NeverNegative(c, start, es);
    LevelIsLeastAllowance(c, start, es, now);
    AccruedNothing(c, now);
    LeastFromIs(c, start, es, now, SinceReset(es), 0.0);
    LeftAccrued(c, es[i].now, now, GrantedFrom(c, start, es, i));
  }

  /** If the last event lies in [a, b], what was granted within is what was granted from the first event at or after a on. */
  lemma {:induction false} WithinIsSuffix(c: Config, start: real, es: seq<Event>, r: nat, a: real, b: real) returns (i: nat)
    requires Ordered(start, es) && r < |es| && a <= es[|es| - 1].now <= b
    ensures r <= i < |es| && a <= es[i].now
    ensures GrantedWithin(c, start, es, r, a, b) == GrantedFrom(c, start, es, i)
  {
    hide GrantedCost;
    var n := |es| - 1;
    if r < n && a <= es[n - 1].now {
      i := WithinIsSuffix(c, start, es[..n], r, a, b);
    } else {
      i := n;
      NothingBefore(c, start, es[..n], r, a, b);
    }
  }

  lemma {:induction false} NothingBefore(c: Config, start: real, es: seq<Event>, r: nat, a: real, b: real)
    requires Ordered(start, es) && (r < |es| ==> es[|es| - 1].now < a)
    ensures GrantedWithin(c, start, es, r, a, b) == 0.0
  {
    if r < |es| {
      NothingBefore(c, start, es[..|es| - 1], r, a, b);
    }
  }

  lemma WiderWindow(c: Config, a: real, a': real, b': real, b: real, spent: real)
    requires c.rate >= 0.0 && a <= a' && b' <= b && spent <= c.max + Accrued(c, a', b')
    ensures spent <= c.max + Accrued(c, a, b)
  {
    hide Accrued;
    AccruedAdds(c, a, a', b);
    AccruedAdds(c, a', b', b);
    AccruedSign(c, a, a');
    AccruedSign(c, b', b);
  }

  lemma {:induction false} WindowAccrued(c: Config, start: real, es: seq<Event>, a: real, b: real)
    requires c.max >= 0.0 && c.rate >= 0.0 && Ordered(start, es) && a <= b
    ensures GrantedWithin(c, start, es, SinceReset(es), a, b) <= c.max + Accrued(c, a, b)
  {
    hide Accrued, GrantedCost, GrantedFrom;
    AccruedSign(c, a, b);
    var r, n := SinceReset(es), |es| - 1;
    if r < |es| {
      SinceResetSnoc(start, es);
      if es[n].now > b {
        WindowAccrued(c, start, es[..n], a, b);
      } else if es[n].now < a {
        NothingBefore(c, start, es, r, a, b);
      } else {
        var i := WithinIsSuffix(c, start, es, r, a, b);
        SuffixBound(c, start, es, i);
        WiderWindow(c, a, es[i].now, es[n].now, b, GrantedFrom(c, start, es, i));
      }
    }
  }

  /** Within any time window since the last reset, the costs granted are at most the capacity plus the refill of that time. */
  lemma WindowBound(c: Config, start: real, es: seq<Event>, a: real, b: real)
    requires c.max >= 0.0 && c.rate >= 0.0 && Ordered(start, es) && a <= b
    ensures GrantedWithin(c, start, es, SinceReset(es), a, b) <= c.max + (b - a) * c.rate
  {
    hide GrantedWithin, SinceReset, Ordered;
    WindowAccrued(c, start, es, a, b);
  }

  // ----- laziness is unobservable -----

  /** What a caller can see of a step: whether a request is granted, and the level it leaves. */
  datatype Seen = Seen(granted: bool, level: real)

  predicate Grants(c: Config, b: Bucket, e: Event) {
    e.op.Acquire? && Refilled(c, b, e.now).tokens >= e.op.cost
  }

  function Outcomes(c: Config, b: Bucket, es: seq<Event>): seq<Seen>
    decreases es
  {
    if es == [] then []
    else
      var b' := Step(c, b, es[0]);
      [Seen(Grants(c, b, es[0]), b'.tokens)] + Outcomes(c, b', es[1..])
  }

  /** An event of a run, marked when it is one of the inserted ones. */
  datatype Marked = Marked(event: Event, inserted: bool)

  function Without(ms: seq<Marked>): seq<Event> {
    if ms == [] then []
    else (if ms[0].inserted then [] else [ms[0].event]) + Without(ms[1..])
  }

  /** The outcomes of the events that are not inserted, in the run that has all of them. */
  function KeptOutcomes(c: Config, b: Bucket, ms: seq<Marked>): seq<Seen>
    decreases ms
  {
    if ms == [] then []
    else
      var e := ms[0].event;
      var b' := Step(c, b, e);
      (if ms[0].inserted then [] else [Seen(Grants(c, b, e), b'.tokens)]) + KeptOutcomes(c, b', ms[1..])
  }

  function Finally(c: Config, b: Bucket, ms: seq<Marked>): Bucket
    decreases ms
  {
    if ms == [] then b else Finally(c, Step(c, b, ms[0].event), ms[1..])
  }

  function FinallyWithout(c: Config, b: Bucket, es: seq<Event>): Bucket
    decreases es
  {
    if es == [] then b else FinallyWithout(c, Step(c, b, es[0]), es[1..])
  }

  /** Inserted events are level queries or refused requests; the clock does not go back. */
  predicate Harmless(c: Config, b: Bucket, ms: seq<Marked>)
    decreases ms
  {
    ms == [] ||
    (var e := ms[0].event;
     && b.last <= e.now
     && (ms[0].inserted ==> e.op.Peek? || (e.op.Acquire? && Refilled(c, b, e.now).tokens < e.op.cost))
     && Harmless(c, Step(c, b, e), ms[1..]))
  }

  /** b' is b, or b brought up to date at a later time. */
  predicate Ahead(c: Config, b: Bucket, b': Bucket) {
    b' == b || (b.last <= b'.last && b' == Refilled(c, b, b'.last))
  }

  /** Refilling in two steps is refilling in one. */
  lemma RefillTwice(c: Config, b: Bucket, t: real, now: real)
    requires c.rate >= 0.0 && b.last <= t <= now
    ensures Refilled(c, Refilled(c, b, t), now) == Refilled(c, b, now)
  {
    hide Accrued;
    AccruedAdds(c, b.last, t, now);
    AccruedSign(c, t, now);
  }

  lemma AheadRefills(c: Config, b: Bucket, b': Bucket, now: real)
    requires c.rate >= 0.0 && Ahead(c, b, b') && b'.last <= now
    ensures Refilled(c, b', now) == Refilled(c, b, now) && b.last <= now
  {
    if b' != b {
      RefillTwice(c, b, b'.last, now);
    }
  }

  /**
   Inserting any number of level queries and refused requests anywhere in a run changes no decision and
   no level of the other events, nor the level at any later time.
   */
  lemma {:induction false} LazyRefillUnobservable(c: Config, b: Bucket, b': Bucket, ms: seq<Marked>, now: real)
    requires c.rate >= 0.0 && Ahead(c, b, b') && Harmless(c, b', ms)
    requires Finally(c, b', ms).last <= now
    ensures KeptOutcomes(c, b', ms) == Outcomes(c, b, Without(ms))
    ensures Refilled(c, Finally(c, b', ms), now) == Refilled(c, FinallyWithout(c, b, Without(ms)), now)
    decreases ms
  {
    if ms == [] {
      AheadRefills(c, b, b', now);
    } else {
      var e := ms[0].event;
      AheadRefills(c, b, b', e.now);
      if ms[0].inserted {
        LazyRefillUnobservable(c, b, Step(c, b', e), ms[1..], now);
        assert Without(ms) == Without(ms[1..]);
      } else {
        assert Step(c, b', e) == Step(c, b, e);
        LazyRefillUnobservable(c, Step(c, b, e), Step(c, b', e), ms[1..], now);
        assert Without(ms) == [e] + Without(ms[1..]);
        assert Without(ms)[1..] == Without(ms[1..]);
      }
    }
  }
}
