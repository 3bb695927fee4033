/**
 The idempotency cache. A keyed request reads the clock, looks its key up under the lock, runs the handler
 unlocked on a miss, and stores the response under the lock. Requests of any number of threads interleave;
 requests without a key never touch the cache.
 */
module Idempotency {
  import opened Options

  datatype Entry<+R> = Entry(response: R, expiresAt: int)

  type Cache<R> = map<string, Entry<R>>

  // ----- the two locked regions -----

  function Cached<R>(cache: Cache<R>, key: string, now: int): Option<R> {
    if key in cache && cache[key].expiresAt > now then Some(cache[key].response) else None
  }

  /** The lookup removes an entry that has expired. */
  function Swept<R>(cache: Cache<R>, key: string, now: int): Cache<R> {
    if key in cache && cache[key].expiresAt <= now then cache - {key} else cache
  }

  datatype Reply<+R> = FromCache(response: R) | FromHandler(response: R) | HandlerThrew

  class IdempotencyCache<R> {
    const ttl: int
    var entries: Cache<R>

    constructor (ttl: int)
      ensures this.ttl == ttl && entries == map[]
    {
      this.ttl := ttl;
      entries := map[];
    }

    method Find(key: string, now: int) returns (hit: Option<R>)
      modifies this
      ensures hit == Cached(old(entries), key, now)
      ensures entries == Swept(old(entries), key, now)
    {
      hit := None;
      if key in entries {
        if entries[key].expiresAt > now {
          return Some(entries[key].response);
        }
        entries := entries - {key};
      }
    }

    method Store(key: string, response: R, now: int)
      modifies this
      ensures entries == old(entries)[key := Entry(response, now + ttl)]
    {
      entries := entries[key := Entry(response, now + ttl)];
    }

    /** One request that no other request overlaps; `None` as outcome means that the handler throws. */
    method Handle(header: Option<string>, now: int, outcome: Option<R>) returns (reply: Reply<R>)
      modifies this
      ensures (header.None? || header.value == "") ==>
                entries == old(entries) && reply == (if outcome.Some? then FromHandler(outcome.value) else HandlerThrew)
      ensures header.Some? && header.value != "" ==>
                var hit := Cached(old(entries), header.value, now);
                if hit.Some? then reply == FromCache(hit.value) && entries == old(entries)
                else if outcome.Some? then
                  && reply == FromHandler(outcome.value)
                  && entries == old(entries)[header.value := Entry(outcome.value, now + ttl)]
                else reply == HandlerThrew && entries == old(entries) - {header.value}
    {
      reply := if outcome.Some? then FromHandler(outcome.value) else HandlerThrew;
      if header.None? || header.value == "" {
        return;
      }
      var hit := Find(header.value, now);
      if hit.Some? {
        return FromCache(hit.value);
      }
      if outcome.Some? {
        Store(header.value, outcome.value, now);
      }
    }
  }

  // ----- interleaved requests -----

  /** A handler execution that completed normally: its key, the clock reading of its request, its response. */
  datatype Execution<+R> = Execution(key: string, start: int, response: R)

  datatype Request = Request(key: string, start: int, executing: bool)

  /**
   `clock`, `done` and `lastLook` record the run and are read by no step: the clock, the completed
   executions, and the latest clock reading among the lookups of a key since its last completed execution.
   */
  datatype State<R> = State(
    cache: Cache<R>,
    active: map<nat, Request>,
    clock: int,
    done: seq<Execution<R>>,
    lastLook: map<string, int>)

  datatype Action<R> = Arrive(id: nat, key: string, now: int) | Look(id: nat) | Finish(id: nat, response: R) | Fail(id: nat)

  predicate Enabled<R>(s: State<R>, a: Action<R>) {
    match a
    case Arrive(id, key, now) => id !in s.active && key != "" && s.clock <= now
    case Look(id) => id in s.active && !s.active[id].executing
    case Finish(id, _) => id in s.active && s.active[id].executing
    case Fail(id) => id in s.active && s.active[id].executing
  }

  function Next<R>(ttl: int, s: State<R>, a: Action<R>): State<R>
    requires Enabled(s, a)
  {
    match a
    case Arrive(id, key, now) => s.(active := s.active[id := Request(key, now, false)], clock := now)
    case Look(id) =>
      var q := s.active[id];
      s.(cache := Swept(s.cache, q.key, q.start),
         active := if Cached(s.cache, q.key, q.start).Some? then s.active - {id} else s.active[id := q.(executing := true)],
         lastLook := if q.key in s.lastLook && s.lastLook[q.key] > q.start then s.lastLook else s.lastLook[q.key := q.start])
    case Finish(id, response) =>
      var q := s.active[id];
      s.(cache := s.cache[q.key := Entry(response, q.start + ttl)],
         active := s.active - {id},
         done := s.done + [Execution(q.key, q.start, response)],
         lastLook := s.lastLook - {q.key})
    case Fail(id) => s.(active := s.active - {id})
  }

  function Initial<R>(clock: int): State<R> {
    State(map[], map[], clock, [], map[])
  }

  function Exec<R>(ttl: int, clock: int, acts: seq<Action<R>>): Option<State<R>> {
    if acts == [] then Some(Initial(clock))
    else
      var n := |acts| - 1;
      var s := Exec(ttl, clock, acts[..n]);
      if s.Some? && Enabled(s.value, acts[n]) then Some(Next(ttl, s.value, acts[n])) else None
  }

  // ----- the reference: the whole history -----

  /** The execution for the key that completed last. */
  function Latest<R>(done: seq<Execution<R>>, key: string): Option<Execution<R>> {
    if done == [] then None
    else if done[|done| - 1].key == key then Some(done[|done| - 1])
    else Latest(done[..|done| - 1], key)
  }

  /** What the full history has to say: the response of that execution if it started less than ttl ago. */
  function FreshAnswer<R>(done: seq<Execution<R>>, key: string, now: int, ttl: int): Option<R> {
    var x := Latest(done, key);
    if x.Some? && now - x.value.start < ttl then Some(x.value.response) else None
  }

  /** A lookup since the key's last completed execution came at or after that execution's expiry. */
  ghost predicate Expired<R>(ttl: int, s: State<R>, key: string, x: Execution<R>) {
    key in s.lastLook && x.start + ttl <= s.lastLook[key]
  }

  /** The cache holds the latest execution of a key, unless a lookup after its expiry has dropped it. */
  ghost predicate CacheInv<R>(ttl: int, s: State<R>, key: string) {
    var x := Latest(s.done, key);
    && (key in s.cache <==> x.Some? && !Expired(ttl, s, key, x.value))
    && (key in s.cache ==> s.cache[key] == Entry(x.value.response, x.value.start + ttl))
  }

  lemma LatestSnoc<R>(done: seq<Execution<R>>, x: Execution<R>, key: string)
    ensures Latest(done + [x], key) == if x.key == key then Some(x) else Latest(done, key)
  {
    assert (done + [x])[..|done|] == done;
  }

  lemma CacheInvNext<R>(ttl: int, s: State<R>, a: Action<R>, key: string)
    requires Enabled(s, a) && CacheInv(ttl, s, key)
    ensures CacheInv(ttl, Next(ttl, s, a), key)
  {
    if a.Finish? {
      var q := s.active[a.id];
      LatestSnoc(s.done, Execution(q.key, q.start, a.response), key);
    }
  }

  lemma {:induction false} RunsKeepCacheInv<R>(ttl: int, clock: int, acts: seq<Action<R>>, key: string)
    requires Exec(ttl, clock, acts).Some?
    ensures CacheInv(ttl, Exec(ttl, clock, acts).value, key)
  {
    if acts != [] {
      hide CacheInv, Next;
      var n := |acts| - 1;
      RunsKeepCacheInv(ttl, clock, acts[..n], key);
      CacheInvNext(ttl, Exec(ttl, clock, acts[..n]).value, acts[n], key);
    }
  }

  /**
   In every interleaving, an answer from the cache is the response of the execution for the same key that
   completed last, and that execution started less than ttl before the request.
   */
  lemma CachedAnswerJustified<R>(ttl: int, clock: int, acts: seq<Action<R>>, key: string, now: int)
    requires Exec(ttl, clock, acts).Some? && Cached(Exec(ttl, clock, acts).value.cache, key, now).Some?
    ensures var s := Exec(ttl, clock, acts).value;
            Cached(s.cache, key, now) == FreshAnswer(s.done, key, now, ttl)
  {
    hide Exec;
    RunsKeepCacheInv(ttl, clock, acts, key);
  }

  /**
   In every interleaving, a lookup is answered from the cache exactly when the history has a fresh answer
   and no lookup since then came after its expiry; in every other case the handler runs.
   */
  lemma LookupExactly<R>(ttl: int, clock: int, acts: seq<Action<R>>, key: string, now: int)
    requires Exec(ttl, clock, acts).Some?
    ensures var s := Exec(ttl, clock, acts).value;
            Cached(s.cache, key, now) ==
              if FreshAnswer(s.done, key, now, ttl).Some? && !Expired(ttl, s, key, Latest(s.done, key).value)
              then FreshAnswer(s.done, key, now, ttl) else None
  {
    hide Exec;
    RunsKeepCacheInv(ttl, clock, acts, key);
  }

  /**
   A lookup whose clock reading is not older than that of any lookup of its key since the last completed
   execution is answered from the cache exactly when the history has a fresh answer, and with that answer.
   */
  lemma LookupAgreesWithHistory<R>(ttl: int, clock: int, acts: seq<Action<R>>, key: string, now: int)
    requires Exec(ttl, clock, acts).Some?
    requires var s := Exec(ttl, clock, acts).value; key in s.lastLook ==> s.lastLook[key] <= now
    ensures var s := Exec(ttl, clock, acts).value;
            Cached(s.cache, key, now) == FreshAnswer(s.done, key, now, ttl)
  {
    hide Exec;
    LookupExactly(ttl, clock, acts, key, now);
  }

  // ----- the history, read off the actions -----

  /** The last arrival of request id, as key and clock reading. */
  function Arrival<R>(acts: seq<Action<R>>, id: nat): Option<(string, int)> {
    if acts == [] then None
    else
      var a := acts[|acts| - 1];
      if a.Arrive? && a.id == id then Some((a.key, a.now)) else Arrival(acts[..|acts| - 1], id)
  }

  /** The executions that completed: one for each finish action, for the request that arrived under its number. */
  function Completions<R>(acts: seq<Action<R>>): seq<Execution<R>> {
    if acts == [] then []
    else
      var init, a := acts[..|acts| - 1], acts[|acts| - 1];
      var x := if a.Finish? then Arrival(init, a.id) else None;
      Completions(init) + (if a.Finish? && x.Some? then [Execution(x.value.0, x.value.1, a.response)] else [])
  }

  lemma {:induction false} ActiveArrived<R>(ttl: int, clock: int, acts: seq<Action<R>>, id: nat)
    requires Exec(ttl, clock, acts).Some? && id in Exec(ttl, clock, acts).value.active
    ensures var q := Exec(ttl, clock, acts).value.active[id]; Arrival(acts, id) == Some((q.key, q.start))
  {
    hide Cached, Swept;
    var n := |acts| - 1;
    if !(acts[n].Arrive? && acts[n].id == id) {
      ActiveArrived(ttl, clock, acts[..n], id);
    }
  }

  /** Every finish action completes the execution of its request, and nothing else completes one. */
  lemma {:induction false} DoneExactly<R>(ttl: int, clock: int, acts: seq<Action<R>>)
    requires Exec(ttl, clock, acts).Some?
    ensures Exec(ttl, clock, acts).value.done == Completions(acts)
  {
    if acts != [] {
      hide Cached, Swept, Arrival;
      var n := |acts| - 1;
      DoneExactly(ttl, clock, acts[..n]);
      if acts[n].Finish? {
        ActiveArrived(ttl, clock, acts[..n], acts[n].id);
      }
    }
  }

  /**
   Execution i answers a lookup of the key at `now`: no later one for the key has completed, it started less
   than ttl before, and no lookup since its completion came after its expiry.
   */
  ghost predicate Answers<R>(ttl: int, s: State<R>, key: string, now: int, i: nat) {
    && i < |s.done| && s.done[i].key == key
    && (forall j :: i < j < |s.done| ==> s.done[j].key != key)
    && now < s.done[i].start + ttl
    && (key in s.lastLook ==> s.lastLook[key] < s.done[i].start + ttl)
  }

  lemma {:induction false} LatestAt<R>(done: seq<Execution<R>>, key: string, i: nat)
    requires i < |done| && done[i].key == key && forall j :: i < j < |done| ==> done[j].key != key
    ensures Latest(done, key) == Some(done[i])
  {
    if i < |done| - 1 {
      LatestAt(done[..|done| - 1], key, i);
    }
  }

  lemma {:induction false} LatestIndex<R>(done: seq<Execution<R>>, key: string) returns (i: nat)
    requires Latest(done, key).Some?
    ensures i < |done| && done[i] == Latest(done, key).value && done[i].key == key
    ensures forall j :: i < j < |done| ==> done[j].key != key
  {
    var n := |done| - 1;
    if done[n].key == key {
      i := n;
    } else {
      i := LatestIndex(done[..n], key);
    }
  }

  /** A lookup runs the handler exactly when no execution of the history answers it; otherwise it is answered by that execution. */
  lemma HandlerRunsExactly<R>(ttl: int, clock: int, acts: seq<Action<R>>, id: nat)
    requires Exec(ttl, clock, acts + [Look(id)]).Some?
    ensures Exec(ttl, clock, acts).Some? && id in Exec(ttl, clock, acts).value.active
    ensures var s, t := Exec(ttl, clock, acts).value, Exec(ttl, clock, acts + [Look(id)]).value;
            var q := s.active[id];
            && (id in t.active <==> forall i: nat :: !Answers(ttl, s, q.key, q.start, i))
            && (id in t.active ==> t.active[id] == q.(executing := true))
            && (forall i: nat :: Answers(ttl, s, q.key, q.start, i) ==> Cached(s.cache, q.key, q.start) == Some(s.done[i].response))
  {
    assert (acts + [Look(id)])[..|acts|] == acts;
    var s := Exec(ttl, clock, acts).value;
    var q := s.active[id];
    LookupExactly(ttl, clock, acts, q.key, q.start);
    hide Exec;
    forall i: nat | Answers(ttl, s, q.key, q.start, i)
      ensures Cached(s.cache, q.key, q.start) == Some(s.done[i].response)
    {
      LatestAt(s.done, q.key, i);
    }
    if Cached(s.cache, q.key, q.start).Some? {
      var i := LatestIndex(s.done, q.key);
      assert Answers(ttl, s, q.key, q.start, i);
    }
  }

  // ----- runs without overlapping requests for one key -----

  /** A request arrives only when no request for its key is active. */
  ghost predicate Disjoint<R>(ttl: int, clock: int, acts: seq<Action<R>>) {
    forall i :: 0 <= i < |acts| && acts[i].Arrive? && Exec(ttl, clock, acts[..i]).Some? ==>
      forall id :: id in Exec(ttl, clock, acts[..i]).value.active ==>
        Exec(ttl, clock, acts[..i]).value.active[id].key != acts[i].key
  }

  ghost predicate OrderInv<R>(s: State<R>) {
    && (forall key :: key in s.lastLook ==> s.lastLook[key] <= s.clock)
    && (forall id :: id in s.active ==> s.active[id].start <= s.clock)
    && (forall id :: id in s.active && !s.active[id].executing && s.active[id].key in s.lastLook ==>
          s.lastLook[s.active[id].key] <= s.active[id].start)
    && (forall i, j :: i in s.active && j in s.active && s.active[i].key == s.active[j].key ==> i == j)
  }

  lemma OrderInvNext<R>(ttl: int, s: State<R>, a: Action<R>)
    requires Enabled(s, a) && OrderInv(s)
    requires a.Arrive? ==> forall id :: id in s.active ==> s.active[id].key != a.key
    ensures OrderInv(Next(ttl, s, a))
  {
    hide Cached, Swept;
  }

  lemma DisjointPrefix<R>(ttl: int, clock: int, acts: seq<Action<R>>)
    requires acts != [] && Disjoint(ttl, clock, acts)
    ensures Disjoint(ttl, clock, acts[..|acts| - 1])
  {
    hide Exec;
    var n := |acts| - 1;
    assert forall i :: 0 <= i <= n ==> acts[..n][..i] == acts[..i];
  }

  lemma {:induction false} DisjointRunsOrdered<R>(ttl: int, clock: int, acts: seq<Action<R>>)
    requires Exec(ttl, clock, acts).Some? && Disjoint(ttl, clock, acts)
    ensures OrderInv(Exec(ttl, clock, acts).value)
  {
    if acts != [] {
      hide OrderInv, Next;
      var n := |acts| - 1;
      DisjointPrefix(ttl, clock, acts);
      DisjointRunsOrdered(ttl, clock, acts[..n]);
      OrderInvNext(ttl, Exec(ttl, clock, acts[..n]).value, acts[n]);
    }
  }

  /**
   In runs without overlapping requests for one key, a request is answered from the cache exactly when the
   latest normally completed execution for its key started less than ttl ago, with that response.
   */
  lemma DisjointRunsAgree<R>(ttl: int, clock: int, acts: seq<Action<R>>, id: nat)
    requires Exec(ttl, clock, acts).Some? && Disjoint(ttl, clock, acts)
    requires var s := Exec(ttl, clock, acts).value; id in s.active && !s.active[id].executing
    ensures var s := Exec(ttl, clock, acts).value;
            var q := s.active[id];
            Cached(s.cache, q.key, q.start) == FreshAnswer(s.done, q.key, q.start, ttl)
  {
    hide Exec, Disjoint;
    DisjointRunsOrdered(ttl, clock, acts);
    var q := Exec(ttl, clock, acts).value.active[id];
    LookupAgreesWithHistory(ttl, clock, acts, q.key, q.start);
  }

  // ----- the promise: one execution per key and ttl -----

  /** Executions of one key complete in the order of their starts, and start at least ttl apart. */
  ghost predicate Spaced<R>(ttl: int, done: seq<Execution<R>>) {
    forall i, j :: 0 <= i < j < |done| && done[i].key == done[j].key ==>
      done[i].start <= done[j].start && done[i].start + ttl <= done[j].start
  }

  /** No completed execution is younger than an active request for its key, nor fresh for one that executes. */
  ghost predicate SpacedInv<R>(ttl: int, s: State<R>) {
    && Spaced(ttl, s.done)
    && (forall i :: 0 <= i < |s.done| ==> s.done[i].start <= s.clock)
    && (forall id, i :: id in s.active && 0 <= i < |s.done| && s.done[i].key == s.active[id].key ==>
          s.done[i].start <= s.active[id].start && (s.active[id].executing ==> s.done[i].start + ttl <= s.active[id].start))
  }

  lemma {:induction false} LatestIsLast<R>(done: seq<Execution<R>>, key: string, i: nat)
    requires i < |done| && done[i].key == key
    ensures exists j :: i <= j < |done| && done[j].key == key && Latest(done, key) == Some(done[j])
  {
    var n := |done| - 1;
    if done[n].key != key {
      LatestIsLast(done[..n], key, i);
    }
  }

  /** A request that finds no fresh answer starts at least ttl after every completed execution of its key. */
  lemma StaleForAll<R>(ttl: int, done: seq<Execution<R>>, key: string, now: int, i: nat)
    requires Spaced(ttl, done) && FreshAnswer(done, key, now, ttl).None? && i < |done| && done[i].key == key
    ensures done[i].start + ttl <= now
  {
    LatestIsLast(done, key, i);
    var j :| i <= j < |done| && done[j].key == key && Latest(done, key) == Some(done[j]);
    assert i < j ==> done[i].start <= done[j].start;
  }

  lemma SpacedInvNext<R>(ttl: int, s: State<R>, a: Action<R>)
    requires Enabled(s, a) && SpacedInv(ttl, s) && OrderInv(s)
    requires a.Look? ==> var q := s.active[a.id]; Cached(s.cache, q.key, q.start) == FreshAnswer(s.done, q.key, q.start, ttl)
    ensures SpacedInv(ttl, Next(ttl, s, a))
  {
    match a
    case Look(_) => hide SpacedInv, OrderInv, Next; SpacedInvLook(ttl, s, a);
    case Finish(_, _) => hide SpacedInv, OrderInv, Next; SpacedInvFinish(ttl, s, a);
    case Arrive(_, _, _) =>
    case Fail(_) =>
  }

  lemma SpacedInvLook<R>(ttl: int, s: State<R>, a: Action<R>)
    requires a.Look? && Enabled(s, a) && SpacedInv(ttl, s)
    requires var q := s.active[a.id]; Cached(s.cache, q.key, q.start) == FreshAnswer(s.done, q.key, q.start, ttl)
    ensures SpacedInv(ttl, Next(ttl, s, a))
  {
    hide FreshAnswer, Spaced, Swept;
    var q := s.active[a.id];
    if Cached(s.cache, q.key, q.start).None? {
      forall i | 0 <= i < |s.done| && s.done[i].key == q.key
        ensures s.done[i].start + ttl <= q.start
      {
        StaleForAll(ttl, s.done, q.key, q.start, i);
      }
    }
  }

  lemma SpacedInvFinish<R>(ttl: int, s: State<R>, a: Action<R>)
    requires a.Finish? && Enabled(s, a) && SpacedInv(ttl, s) && OrderInv(s)
    ensures SpacedInv(ttl, Next(ttl, s, a))
  {}

  lemma {:induction false} DisjointRunsSpaced<R>(ttl: int, clock: int, acts: seq<Action<R>>)
    requires Exec(ttl, clock, acts).Some? && Disjoint(ttl, clock, acts)
    ensures SpacedInv(ttl, Exec(ttl, clock, acts).value)
  {
    if acts != [] {
      hide SpacedInv, OrderInv, Next, Cached, FreshAnswer;
      var n := |acts| - 1;
      DisjointPrefix(ttl, clock, acts);
      DisjointRunsSpaced(ttl, clock, acts[..n]);
      DisjointRunsOrdered(ttl, clock, acts[..n]);
      if acts[n].Look? {
        DisjointRunsAgree(ttl, clock, acts[..n], acts[n].id);
      }
      SpacedInvNext(ttl, Exec(ttl, clock, acts[..n]).value, acts[n]);
    } else {
      FreshSpaced<R>(ttl, clock);
    }
  }

  lemma FreshSpaced<R>(ttl: int, clock: int)
    ensures SpacedInv(ttl, Initial<R>(clock))
  {}

  /**
   In runs without overlapping requests for one key, any two executions of the handler for that key that
   completed started at least ttl apart, the earlier one completing first.
   */
  lemma ExecutionsApart<R>(ttl: int, clock: int, acts: seq<Action<R>>, i: nat, j: nat)
    requires Exec(ttl, clock, acts).Some? && Disjoint(ttl, clock, acts)
    requires var done := Exec(ttl, clock, acts).value.done; i < j < |done| && done[i].key == done[j].key
    ensures var done := Exec(ttl, clock, acts).value.done;
            done[i].start <= done[j].start && done[i].start + ttl <= done[j].start
  {
    hide Exec, Disjoint;
    DisjointRunsSpaced(ttl, clock, acts);
  }

  // ----- erasing expired entries is unobservable -----

  /** The machine whose lookup leaves expired entries in place. */
  function NextKeeping<R>(ttl: int, s: State<R>, a: Action<R>): State<R>
    requires Enabled(s, a)
  {
    if a.Look? then Next(ttl, s, a).(cache := s.cache) else Next(ttl, s, a)
  }

  function ExecKeeping<R>(ttl: int, clock: int, acts: seq<Action<R>>): Option<State<R>> {
    if acts == [] then Some(Initial(clock))
    else
      var n := |acts| - 1;
      var s := ExecKeeping(ttl, clock, acts[..n]);
      if s.Some? && Enabled(s.value, acts[n]) then Some(NextKeeping(ttl, s.value, acts[n])) else None
  }

  /** Without erasure the cache holds the last completed execution of every key, fresh or not. */
  ghost predicate KeepsLatest<R>(ttl: int, s: State<R>, key: string) {
    var x := Latest(s.done, key);
    && (key in s.cache <==> x.Some?)
    && (key in s.cache ==> s.cache[key] == Entry(x.value.response, x.value.start + ttl))
  }

  lemma {:induction false} KeepingRuns<R>(ttl: int, clock: int, acts: seq<Action<R>>, key: string)
    requires ExecKeeping(ttl, clock, acts).Some?
    ensures KeepsLatest(ttl, ExecKeeping(ttl, clock, acts).value, key)
  {
    if acts != [] {
      var n := |acts| - 1;
      var s := ExecKeeping(ttl, clock, acts[..n]).value;
      KeepingRuns(ttl, clock, acts[..n], key);
      if acts[n].Finish? {
        var q := s.active[acts[n].id];
        LatestSnoc(s.done, Execution(q.key, q.start, acts[n].response), key);
      }
    }
  }

  /** Without erasure every lookup answers what the full history says, in every interleaving. */
  lemma KeepingAnswers<R>(ttl: int, clock: int, acts: seq<Action<R>>, key: string, now: int)
    requires ExecKeeping(ttl, clock, acts).Some?
    ensures var s := ExecKeeping(ttl, clock, acts).value;
            Cached(s.cache, key, now) == FreshAnswer(s.done, key, now, ttl)
  {
    hide ExecKeeping;
    KeepingRuns(ttl, clock, acts, key);
  }

  /** Two states that differ in nothing but the cache. */
  ghost predicate SameButCache<R>(s: State<R>, k: State<R>) {
    s.(cache := map[]) == k.(cache := map[])
  }

  /** Both machines take a step together if the lookup, if it is one, is answered alike. */
  lemma StepTogether<R>(ttl: int, s: State<R>, k: State<R>, a: Action<R>)
    requires SameButCache(s, k)
    requires a.Look? && a.id in s.active && !s.active[a.id].executing ==>
               var q := s.active[a.id]; Cached(s.cache, q.key, q.start) == Cached(k.cache, q.key, q.start)
    ensures Enabled(s, a) <==> Enabled(k, a)
    ensures Enabled(s, a) ==> SameButCache(Next(ttl, s, a), NextKeeping(ttl, k, a))
  {
    hide Cached, Swept;
    assert s.active == s.(cache := map[]).active == k.active;
    assert s.clock == s.(cache := map[]).clock == k.clock;
    assert s.done == s.(cache := map[]).done == k.done;
    assert s.lastLook == s.(cache := map[]).lastLook == k.lastLook;
  }

  /**
   In runs without overlapping requests for one key, erasing expired entries cannot be told from keeping
   them: both machines allow the same actions and go through the same states but for the cache.
   */
  lemma {:induction false} SweepUnobservable<R>(ttl: int, clock: int, acts: seq<Action<R>>)
    requires Disjoint(ttl, clock, acts)
    ensures Exec(ttl, clock, acts).Some? <==> ExecKeeping(ttl, clock, acts).Some?
    ensures Exec(ttl, clock, acts).Some? ==>
              SameButCache(Exec(ttl, clock, acts).value, ExecKeeping(ttl, clock, acts).value)
  {
    if acts != [] {
      hide Disjoint, Next, NextKeeping, SameButCache, Enabled;
      var n := |acts| - 1;
      DisjointPrefix(ttl, clock, acts);
      SweepUnobservable(ttl, clock, acts[..n]);
      if Exec(ttl, clock, acts[..n]).Some? {
        if acts[n].Look? {
          AnsweredAlike(ttl, clock, acts[..n], acts[n].id);
        }
        StepTogether(ttl, Exec(ttl, clock, acts[..n]).value, ExecKeeping(ttl, clock, acts[..n]).value, acts[n]);
      }
    }
  }

  /** Every request that is about to look up gets the same answer from both machines. */
  lemma AnsweredAlike<R>(ttl: int, clock: int, acts: seq<Action<R>>, id: nat)
    requires Exec(ttl, clock, acts).Some? && ExecKeeping(ttl, clock, acts).Some? && Disjoint(ttl, clock, acts)
    requires SameButCache(Exec(ttl, clock, acts).value, ExecKeeping(ttl, clock, acts).value)
    ensures var s, k := Exec(ttl, clock, acts).value, ExecKeeping(ttl, clock, acts).value;
            id in s.active && !s.active[id].executing ==>
              var q := s.active[id]; Cached(s.cache, q.key, q.start) == Cached(k.cache, q.key, q.start)
  {
    hide Exec, ExecKeeping, Disjoint, Cached;
    var s, k := Exec(ttl, clock, acts).value, ExecKeeping(ttl, clock, acts).value;
    if id in s.active && !s.active[id].executing {
      DisjointRunsAgree(ttl, clock, acts, id);
      KeepingAnswers(ttl, clock, acts, s.active[id].key, s.active[id].start);
      assert s.done == s.(cache := map[]).done == k.done;
    }
  }

  /** Hence, in such runs, the answers themselves agree. */
  lemma SweepKeepsAnswers<R>(ttl: int, clock: int, acts: seq<Action<R>>, id: nat)
    requires Exec(ttl, clock, acts).Some? && Disjoint(ttl, clock, acts)
    ensures ExecKeeping(ttl, clock, acts).Some?
    ensures var s, k := Exec(ttl, clock, acts).value, ExecKeeping(ttl, clock, acts).value;
            id in s.active && !s.active[id].executing ==>
              var q := s.active[id]; Cached(s.cache, q.key, q.start) == Cached(k.cache, q.key, q.start)
  {
    hide Exec, ExecKeeping, Disjoint, Cached;
    SweepUnobservable(ttl, clock, acts);
    AnsweredAlike(ttl, clock, acts, id);
  }

  /** Overlapping requests with one key can both run the handler. */
  lemma OverlapRunsHandlerTwice<R>(ttl: int, clock: int, key: string)
    requires key != ""
    ensures exists acts: seq<Action<R>> ::
              && Exec(ttl, clock, acts).Some?
              && var active := Exec(ttl, clock, acts).value.active;
                 0 in active && 1 in active && active[0] == active[1] == Request(key, clock, true)
  {
    var a0: seq<Action<R>> := [];
    var a1 := Extend(ttl, clock, a0, Arrive(0, key, clock));
    var a2 := Extend(ttl, clock, a1, Arrive(1, key, clock));
    var a3 := Extend(ttl, clock, a2, Look(0));
    var a4 := Extend(ttl, clock, a3, Look(1));
    var active := Exec(ttl, clock, a4).value.active;
    assert active[0] == active[1] == Request(key, clock, true);
  }

  lemma Extend<R>(ttl: int, clock: int, acts: seq<Action<R>>, a: Action<R>) returns (acts': seq<Action<R>>)
    requires Exec(ttl, clock, acts).Some? && Enabled(Exec(ttl, clock, acts).value, a)
    ensures Exec(ttl, clock, acts') == Some(Next(ttl, Exec(ttl, clock, acts).value, a))
  {
    acts' := acts + [a];
    assert acts'[..|acts|] == acts;
  }
}
