/**
 The outbox. Storing an event and swapping the pending list out are the two locked regions; a flush then
 hands its batch to the publishers unlocked, one event at a time. Stores and flushes of any number of
 threads interleave. Events are numbered in the order in which they are stored.
 */
module Outbox {
  import opened Options

  type Kind = nat

  datatype Event = Event(id: nat, kind: Kind)

  /** What became of an event that left its batch. */
  datatype Fate = Published | Unregistered | Threw | Dropped

  datatype Done = Done(event: Event, fate: Fate)

  /** What happens to the rest of a batch: a throwing publisher ends the flush and drops what follows. */
  function Fates(batch: seq<Event>, publishers: set<Kind>, throws: Event -> bool): seq<Done> {
    if batch == [] then []
    else if batch[0].kind !in publishers then [Done(batch[0], Unregistered)] + Fates(batch[1..], publishers, throws)
    else if throws(batch[0]) then [Done(batch[0], Threw)] + AllDropped(batch[1..])
    else [Done(batch[0], Published)] + Fates(batch[1..], publishers, throws)
  }

  function AllDropped(batch: seq<Event>): (r: seq<Done>)
    ensures |r| == |batch|
    ensures forall i :: 0 <= i < |batch| ==> r[i] == Done(batch[i], Dropped)
  {
    seq(|batch|, i requires 0 <= i < |batch| => Done(batch[i], Dropped))
  }

  predicate NoneThrew(done: seq<Done>) {
    forall i :: 0 <= i < |done| ==> !done[i].fate.Threw?
  }

  /** The publisher of the event exists and throws. */
  predicate Fails(e: Event, publishers: set<Kind>, throws: Event -> bool) {
    e.kind in publishers && throws(e)
  }

  /** What a flush does to the i-th event of its batch, told without going through the events before it. */
  lemma {:induction false} FateExactly(batch: seq<Event>, publishers: set<Kind>, throws: Event -> bool, i: nat)
    requires i < |batch|
    ensures |Fates(batch, publishers, throws)| == |batch|
    ensures Fates(batch, publishers, throws)[i] ==
              Done(batch[i],
                   if exists j :: 0 <= j < i && Fails(batch[j], publishers, throws) then Dropped
                   else if batch[i].kind !in publishers then Unregistered
                   else if throws(batch[i]) then Threw
                   else Published)
    decreases batch
  {
    var rest := batch[1..];
    assert forall j :: 1 <= j < |batch| ==> batch[j] == rest[j - 1];
    if Fails(batch[0], publishers, throws) {
    } else if i > 0 {
      FateExactly(rest, publishers, throws, i - 1);
      if j :| 0 <= j < i && Fails(batch[j], publishers, throws) {
        assert Fails(rest[j - 1], publishers, throws);
      }
    } else if rest != [] {
      FateExactly(rest, publishers, throws, 0);
    }
  }

  /** A flush publishes its whole batch exactly when every event has a publisher that does not throw. */
  lemma FlushPublishesAll(batch: seq<Event>, publishers: set<Kind>, throws: Event -> bool)
    ensures |Fates(batch, publishers, throws)| == |batch|
    ensures (forall i :: 0 <= i < |batch| ==> Fates(batch, publishers, throws)[i] == Done(batch[i], Published)) <==>
              (forall i :: 0 <= i < |batch| ==> batch[i].kind in publishers && !throws(batch[i]))
  {
    hide Fates;
    forall i | 0 <= i < |batch|
      ensures |Fates(batch, publishers, throws)| == |batch|
      ensures Fates(batch, publishers, throws)[i] == Done(batch[i], Published) ==>
                batch[i].kind in publishers && !throws(batch[i])
      ensures (forall j :: 0 <= j < |batch| ==> batch[j].kind in publishers && !throws(batch[j])) ==>
                Fates(batch, publishers, throws)[i] == Done(batch[i], Published)
    {
      FateExactly(batch, publishers, throws, i);
    }
    if batch == [] {
      FatesEmpty(publishers, throws);
    } else {
      FateExactly(batch, publishers, throws, 0);
    }
  }

  lemma OneThrew(done: seq<Done>, e: Event, rest: seq<Done>)
    ensures !NoneThrew(done + ([Done(e, Threw)] + rest))
  {
    assert (done + ([Done(e, Threw)] + rest))[|done|].fate.Threw?;
  }

  class OutboxPublisher {
    var outbox: seq<Event>
    var publishers: set<Kind>

    constructor ()
      ensures outbox == [] && publishers == {}
    {
      outbox, publishers := [], {};
    }

    method RegisterPublisher(kind: Kind)
      modifies this
      ensures publishers == old(publishers) + {kind} && outbox == old(outbox)
    {
      publishers := publishers + {kind};
    }

    method Store(e: Event)
      modifies this
      ensures outbox == old(outbox) + [e] && publishers == old(publishers)
    {
      outbox := outbox + [e];
    }

    method PendingCount() returns (n: nat)
      ensures n == |outbox|
    {
      n := |outbox|;
    }

    /** `flush`, undisturbed; `throws` tells for which events the publisher throws. */
    method Flush(throws: Event -> bool) returns (ok: bool, done: seq<Done>)
      modifies this
      ensures outbox == [] && publishers == old(publishers)
      ensures done == Fates(old(outbox), publishers, throws)
      ensures ok <==> NoneThrew(done)
    {
      hide Fates, AllDropped;
      var pending := outbox;
      outbox := [];
      done := [];
      assert pending[0..] == pending;
      FatesEmpty(publishers, throws);
      for i := 0 to |pending|
        invariant outbox == [] && publishers == old(publishers)
        invariant done + Fates(pending[i..], publishers, throws) == Fates(pending, publishers, throws)
        invariant NoneThrew(done)
      {
        var e := pending[i];
        ghost var rest := Fates(pending[i + 1..], publishers, throws);
        assert pending[i..][1..] == pending[i + 1..];
        FatesStep(pending[i..], publishers, throws);
        if e.kind in publishers {
          if throws(e) {
            OneThrew(done, e, AllDropped(pending[i + 1..]));
            done := done + ([Done(e, Threw)] + AllDropped(pending[i + 1..]));
            return false, done;
          }
          Assoc(done, [Done(e, Published)], rest);
          done := done + [Done(e, Published)];
        } else {
          Assoc(done, [Done(e, Unregistered)], rest);
          done := done + [Done(e, Unregistered)];
        }
      }
      assert pending[|pending|..] == [];
      return true, done;
    }
  }

  // ----- interleaved stores and flushes -----

  /** Batch f belongs to the f-th flush; `stored` and `done` record the run and are read by no step. */
  datatype State = State(
    pending: seq<Event>,
    publishers: set<Kind>,
    batches: seq<seq<Event>>,
    stored: seq<Event>,
    done: seq<Done>)

  datatype Action = Register(kind: Kind) | Store(kind: Kind) | Begin | Deliver(flush: nat, throws: bool)

  predicate Enabled(s: State, a: Action) {
    a.Deliver? ==> a.flush < |s.batches| && s.batches[a.flush] != []
  }

  function Next(s: State, a: Action): State
    requires Enabled(s, a)
  {
    match a
    case Register(kind) => s.(publishers := s.publishers + {kind})
    case Store(kind) =>
      var e := Event(|s.stored|, kind);
      s.(pending := s.pending + [e], stored := s.stored + [e])
    case Begin => s.(pending := [], batches := s.batches + [s.pending])
    case Deliver(f, throws) =>
      var e, rest := s.batches[f][0], s.batches[f][1..];
      if e.kind !in s.publishers then s.(batches := s.batches[f := rest], done := s.done + [Done(e, Unregistered)])
      else if throws then s.(batches := s.batches[f := []], done := s.done + [Done(e, Threw)] + AllDropped(rest))
      else s.(batches := s.batches[f := rest], done := s.done + [Done(e, Published)])
  }

  function Initial(publishers: set<Kind>): State {
    State([], publishers, [], [], [])
  }

  function Exec(publishers: set<Kind>, acts: seq<Action>): Option<State> {
    if acts == [] then Some(Initial(publishers))
    else
      var n := |acts| - 1;
      var s := Exec(publishers, acts[..n]);
      if s.Some? && Enabled(s.value, acts[n]) then Some(Next(s.value, acts[n])) else None
  }

  // ----- conservation -----

  function Events(done: seq<Done>): (r: seq<Event>)
    ensures |r| == |done|
    ensures forall i :: 0 <= i < |done| ==> r[i] == done[i].event
  {
    seq(|done|, i requires 0 <= i < |done| => done[i].event)
  }

  ghost function InBatches(batches: seq<seq<Event>>): multiset<Event> {
    if batches == [] then multiset{}
    else InBatches(batches[..|batches| - 1]) + multiset(batches[|batches| - 1])
  }

  lemma InBatchesSnoc(batches: seq<seq<Event>>, b: seq<Event>)
    ensures InBatches(batches + [b]) == InBatches(batches) + multiset(b)
  {
    assert (batches + [b])[..|batches|] == batches;
  }

  lemma {:induction false} InBatchesUpdate(batches: seq<seq<Event>>, f: nat, b: seq<Event>)
    requires f < |batches|
    ensures InBatches(batches[f := b]) + multiset(batches[f]) == InBatches(batches) + multiset(b)
  {
    var n := |batches| - 1;
    if f == n {
      assert batches[f := b][..n] == batches[..n];
    } else {
      assert batches[f := b][..n] == batches[..n][f := b];
      InBatchesUpdate(batches[..n], f, b);
      Reordered(InBatches(batches[..n][f := b]), multiset(batches[f]), InBatches(batches[..n]), multiset(b), multiset(batches[n]));
    }
  }

  lemma Reordered(a: multiset<Event>, b: multiset<Event>, c: multiset<Event>, d: multiset<Event>, x: multiset<Event>)
    requires a + b == c + d
    ensures (a + x) + b == (c + x) + d
  {
    assert (a + x) + b == (a + b) + x;
    assert (c + x) + d == (c + d) + x;
  }

  lemma Moved(all: multiset<Event>, p: multiset<Event>, i: multiset<Event>, i': multiset<Event>, d: multiset<Event>,
              more: multiset<Event>, b: multiset<Event>)
    requires all == p + i + d && i' + (b + more) == i + b
    ensures all == p + i' + (d + more)
  {
    forall e: Event
      ensures all[e] == (p + i' + (d + more))[e]
    {
      assert (i' + (b + more))[e] == (i + b)[e];
    }
  }

  /** Nothing is lost track of and nothing is duplicated; event i is the i-th stored. */
  ghost predicate Conserved(s: State) {
    && multiset(s.stored) == multiset(s.pending) + InBatches(s.batches) + multiset(Events(s.done))
    && forall i :: 0 <= i < |s.stored| ==> s.stored[i].id == i
  }

  lemma ConservedDeliver(s: State, f: nat, b: seq<Event>, more: seq<Done>)
    requires f < |s.batches| && Conserved(s) && multiset(s.batches[f]) == multiset(b) + multiset(Events(more))
    ensures Conserved(s.(batches := s.batches[f := b], done := s.done + more))
  {
    InBatchesUpdate(s.batches, f, b);
    assert Events(s.done + more) == Events(s.done) + Events(more);
    Moved(multiset(s.stored), multiset(s.pending), InBatches(s.batches), InBatches(s.batches[f := b]),
          multiset(Events(s.done)), multiset(Events(more)), multiset(b));
  }

  lemma ConservedNext(s: State, a: Action)
    requires Enabled(s, a) && Conserved(s)
    ensures Conserved(Next(s, a))
  {
    match a
    case Register(_) =>
    case Store(_) => ConservedStore(s, a);
    case Begin => InBatchesSnoc(s.batches, s.pending);
    case Deliver(_, _) => ConservedHandOver(s, a);
  }

  lemma ConservedStore(s: State, a: Action)
    requires a.Store? && Conserved(s)
    ensures Conserved(Next(s, a))
  {}

  lemma ConservedHandOver(s: State, a: Action)
    requires a.Deliver? && Enabled(s, a) && Conserved(s)
    ensures Conserved(Next(s, a))
  {
    hide Conserved;
    var b := s.batches[a.flush];
    if b[0].kind in s.publishers && a.throws {
      ThrownBatch(s.done, b);
      ConservedDeliver(s, a.flush, [], [Done(b[0], Threw)] + AllDropped(b[1..]));
    } else {
      var fate := if b[0].kind in s.publishers then Published else Unregistered;
      OneDelivered(b, fate);
      ConservedDeliver(s, a.flush, b[1..], [Done(b[0], fate)]);
    }
  }

  lemma ThrownBatch(done: seq<Done>, b: seq<Event>)
    requires b != []
    ensures var more := [Done(b[0], Threw)] + AllDropped(b[1..]);
            done + [Done(b[0], Threw)] + AllDropped(b[1..]) == done + more && Events(more) == b
  {}

  lemma OneDelivered(b: seq<Event>, fate: Fate)
    requires b != []
    ensures multiset(b) == multiset(b[1..]) + multiset(Events([Done(b[0], fate)]))
  {
    assert b == [b[0]] + b[1..];
    assert Events([Done(b[0], fate)]) == [b[0]];
  }

  lemma {:induction false} RunsConserve(publishers: set<Kind>, acts: seq<Action>)
    requires Exec(publishers, acts).Some?
    ensures Conserved(Exec(publishers, acts).value)
  {
    if acts != [] {
      hide Next;
      var n := |acts| - 1;
      RunsConserve(publishers, acts[..n]);
      ConservedNext(Exec(publishers, acts[..n]).value, acts[n]);
    }
  }

  lemma {:induction false} NumberedOnce(stored: seq<Event>, i: nat)
    requires i < |stored| && forall k :: 0 <= k < |stored| ==> stored[k].id == k
    ensures multiset(stored)[stored[i]] == 1
  {
    var n := |stored| - 1;
    var init := stored[..n];
    assert stored == init + [stored[n]];
    if i < n {
      NumberedOnce(init, i);
    } else {
      assert stored[n] !in init;
    }
  }

  /**
   In every interleaving each stored event is in exactly one place, once: still pending, in one flush's
   batch, or done with. In particular it has reached its publisher at most once.
   */
  lemma ExactlyOnePlace(publishers: set<Kind>, acts: seq<Action>, i: nat)
    requires Exec(publishers, acts).Some? && i < |Exec(publishers, acts).value.stored|
    ensures var s := Exec(publishers, acts).value;
            var e := s.stored[i];
            multiset(s.pending)[e] + InBatches(s.batches)[e] + multiset(Events(s.done))[e] == 1
  {
    hide Exec;
    RunsConserve(publishers, acts);
    NumberedOnce(Exec(publishers, acts).value.stored, i);
  }

  predicate Drained(s: State) {
    s.pending == [] && forall f :: 0 <= f < |s.batches| ==> s.batches[f] == []
  }

  lemma {:induction false} DrainedBatches(batches: seq<seq<Event>>)
    requires forall f :: 0 <= f < |batches| ==> batches[f] == []
    ensures InBatches(batches) == multiset{}
  {
    if batches != [] {
      DrainedBatches(batches[..|batches| - 1]);
    }
  }

  function PublishedEvents(done: seq<Done>): seq<Event> {
    if done == [] then []
    else PublishedEvents(done[..|done| - 1]) + (if done[|done| - 1].fate.Published? then [done[|done| - 1].event] else [])
  }

  lemma {:induction false} PublishedAmongEvents(done: seq<Done>)
    ensures |PublishedEvents(done)| <= |done|
    ensures |PublishedEvents(done)| == |done| <==> forall i :: 0 <= i < |done| ==> done[i].fate.Published?
    ensures (forall i :: 0 <= i < |done| ==> done[i].fate.Published?) ==> PublishedEvents(done) == Events(done)
  {
    if done != [] {
      var n := |done| - 1;
      PublishedAmongEvents(done[..n]);
      assert Events(done) == Events(done[..n]) + [done[n].event];
    }
  }

  /** If action a is a delivery, its event has a publisher and that publisher does not throw. */
  predicate Succeeds(s: State, a: Action)
    requires Enabled(s, a)
  {
    a.Deliver? ==> s.batches[a.flush][0].kind in s.publishers && !a.throws
  }

  /** Every delivery of a run succeeds. */
  predicate AllSucceed(publishers: set<Kind>, acts: seq<Action>)
    requires Exec(publishers, acts).Some?
  {
    acts == [] ||
    (var n := |acts| - 1;
     AllSucceed(publishers, acts[..n]) && Succeeds(Exec(publishers, acts[..n]).value, acts[n]))
  }

  predicate AllPublished(done: seq<Done>) {
    forall i :: 0 <= i < |done| ==> done[i].fate.Published?
  }

  lemma StepPublishes(s: State, a: Action)
    requires Enabled(s, a)
    ensures AllPublished(Next(s, a).done) <==> AllPublished(s.done) && Succeeds(s, a)
  {
    var t := Next(s, a);
    assert s.done == t.done[..|s.done|];
    if a.Deliver? {
      assert t.done[|s.done|].fate.Published? <==> Succeeds(s, a);
    }
  }

  lemma {:induction false} RunPublishes(publishers: set<Kind>, acts: seq<Action>)
    requires Exec(publishers, acts).Some?
    ensures AllPublished(Exec(publishers, acts).value.done) <==> AllSucceed(publishers, acts)
  {
    if acts != [] {
      hide Next, AllPublished, Succeeds;
      var n := |acts| - 1;
      RunPublishes(publishers, acts[..n]);
      StepPublishes(Exec(publishers, acts[..n]).value, acts[n]);
    }
  }

  /**
   A drained outbox has published exactly the stored events if and only if every delivery of the run found
   a publisher for its event and that publisher did not throw.
   */
  lemma DrainedPublishedAll(publishers: set<Kind>, acts: seq<Action>)
    requires Exec(publishers, acts).Some? && Drained(Exec(publishers, acts).value)
    ensures var s := Exec(publishers, acts).value;
            multiset(PublishedEvents(s.done)) == multiset(s.stored) <==> AllSucceed(publishers, acts)
  {
    hide Exec, AllSucceed;
    var s := Exec(publishers, acts).value;
    RunsConserve(publishers, acts);
    RunPublishes(publishers, acts);
    DrainedBatches(s.batches);
    PublishedAmongEvents(s.done);
    assert multiset(s.stored) == multiset(Events(s.done));
    assert |multiset(s.stored)| == |s.done| && |multiset(PublishedEvents(s.done))| == |PublishedEvents(s.done)|;
  }

  /** If every kind stored was registered beforehand and no publisher throws, every delivery publishes. */
  lemma {:induction false} CleanRunsPublish(publishers: set<Kind>, acts: seq<Action>)
    requires Exec(publishers, acts).Some?
    requires forall i :: 0 <= i < |acts| ==> (acts[i].Store? ==> acts[i].kind in publishers) && (acts[i].Deliver? ==> !acts[i].throws)
    ensures var s := Exec(publishers, acts).value;
            && publishers <= s.publishers
            && (forall i :: 0 <= i < |s.pending| ==> s.pending[i].kind in publishers)
            && (forall f :: 0 <= f < |s.batches| ==> AllKnown(s.batches[f], publishers))
            && (forall i :: 0 <= i < |s.done| ==> s.done[i].fate.Published?)
  {
    if acts != [] {
      CleanRunsPublish(publishers, acts[..|acts| - 1]);
    }
  }

  predicate AllKnown(batch: seq<Event>, publishers: set<Kind>) {
    forall i :: 0 <= i < |batch| ==> batch[i].kind in publishers
  }

  /** A publisher that throws loses the rest of its batch: two events stored, none of them published. */
  lemma ThrowLosesBatch(kind: Kind)
    ensures exists acts :: Exec({kind}, acts).Some? && Drained(Exec({kind}, acts).value)
                           && |Exec({kind}, acts).value.stored| == 2 && PublishedEvents(Exec({kind}, acts).value.done) == []
  {
    var a1 := Extend({kind}, [], Store(kind));
    var a2 := Extend({kind}, a1, Store(kind));
    var a3 := Extend({kind}, a2, Begin);
    var a4 := Extend({kind}, a3, Deliver(0, true));
    var s := Exec({kind}, a4).value;
    assert s.done == [Done(Event(0, kind), Threw), Done(Event(1, kind), Dropped)];
    assert s.done[..1] == [Done(Event(0, kind), Threw)] && s.done[..1][..0] == [];
    assert PublishedEvents(s.done[..1]) == [];
    assert PublishedEvents(s.done) == [];
    assert Drained(s);
  }

  lemma Extend(publishers: set<Kind>, acts: seq<Action>, a: Action) returns (acts': seq<Action>)
    requires Exec(publishers, acts).Some? && Enabled(Exec(publishers, acts).value, a)
    ensures Exec(publishers, acts') == Some(Next(Exec(publishers, acts).value, a))
  {
    acts' := acts + [a];
    assert acts'[..|acts|] == acts;
  }

  // ----- stored events and publishers, read off the actions -----

  /** The kinds of the store actions, in order. */
  function KindsStored(acts: seq<Action>): seq<Kind> {
    if acts == [] then []
    else KindsStored(acts[..|acts| - 1]) + (if acts[|acts| - 1].Store? then [acts[|acts| - 1].kind] else [])
  }

  /** Every store action stores one event, and nothing else does. */
  lemma {:induction false} StoredExactly(publishers: set<Kind>, acts: seq<Action>)
    requires Exec(publishers, acts).Some?
    ensures var stored := Exec(publishers, acts).value.stored;
            && |stored| == |KindsStored(acts)|
            && forall i :: 0 <= i < |stored| ==> stored[i] == Event(i, KindsStored(acts)[i])
  {
    if acts != [] {
      StoredExactly(publishers, acts[..|acts| - 1]);
    }
  }

  /** A kind has a publisher exactly if it had one from the start or some action registered one. */
  lemma {:induction false} RegisteredExactly(publishers: set<Kind>, acts: seq<Action>, kind: Kind)
    requires Exec(publishers, acts).Some?
    ensures kind in Exec(publishers, acts).value.publishers <==> kind in publishers || Register(kind) in acts
  {
    if acts != [] {
      var n := |acts| - 1;
      RegisteredExactly(publishers, acts[..n], kind);
      assert acts == acts[..n] + [acts[n]];
    }
  }

  // ----- one flusher -----

  /** A flush begins only when every earlier one has ended. */
  ghost predicate OneFlusher(publishers: set<Kind>, acts: seq<Action>) {
    forall i :: 0 <= i < |acts| && acts[i].Begin? && Exec(publishers, acts[..i]).Some? ==>
      AllEnded(Exec(publishers, acts[..i]).value.batches)
  }

  predicate AllEnded(batches: seq<seq<Event>>) {
    forall f :: 0 <= f < |batches| ==> batches[f] == []
  }

  /** Only the last flush has events left, and everything is in store order. */
  ghost predicate InOrder(s: State) {
    && (forall f :: 0 <= f < |s.batches| - 1 ==> s.batches[f] == [])
    && s.stored == Events(s.done) + (if s.batches == [] then [] else s.batches[|s.batches| - 1]) + s.pending
  }

  lemma InOrderNext(s: State, a: Action)
    requires Enabled(s, a) && InOrder(s) && (a.Begin? ==> AllEnded(s.batches))
    ensures InOrder(Next(s, a))
  {
    match a
    case Register(_) =>
    case Store(kind) =>
    case Begin =>
      assert s.batches != [] ==> s.batches[|s.batches| - 1] == [];
    case Deliver(f, throws) =>
      assert f == |s.batches| - 1;
      hide Next;
      DeliverMoves(s, f, throws);
  }

  /** A delivery moves a front part of its batch, all of it when the publisher throws, to the done list. */
  lemma DeliverMoves(s: State, f: nat, throws: bool)
    requires f < |s.batches| && s.batches[f] != []
    ensures var t := Next(s, Deliver(f, throws));
            && t.pending == s.pending && t.stored == s.stored
            && (exists b :: t.batches == s.batches[f := b] && Events(t.done) + b == Events(s.done) + s.batches[f])
  {
    var e, rest := s.batches[f][0], s.batches[f][1..];
    assert s.batches[f] == [e] + rest;
    var t := Next(s, Deliver(f, throws));
    var b := t.batches[f];
    var more := t.done[|s.done|..];
    assert t.done == s.done + more;
    assert Events(t.done) == Events(s.done) + Events(more);
    assert Events(more) + b == s.batches[f];
    assert t.batches == s.batches[f := b] && Events(t.done) + b == Events(s.done) + s.batches[f];
  }

  /** With one flusher at a time, events are dealt with in the order in which they were stored. */
  lemma {:induction false} StoreOrder(publishers: set<Kind>, acts: seq<Action>)
    requires Exec(publishers, acts).Some? && OneFlusher(publishers, acts)
    ensures InOrder(Exec(publishers, acts).value)
    ensures Drained(Exec(publishers, acts).value) ==> Events(Exec(publishers, acts).value.done) == Exec(publishers, acts).value.stored
  {
    if acts != [] {
      hide InOrder, Next, AllEnded;
      var n := |acts| - 1;
      assert forall i :: 0 <= i <= n ==> acts[..n][..i] == acts[..i];
      StoreOrder(publishers, acts[..n]);
      InOrderNext(Exec(publishers, acts[..n]).value, acts[n]);
    }
    OrderWhenDrained(Exec(publishers, acts).value);
  }

  lemma OrderWhenDrained(s: State)
    ensures InOrder(s) && Drained(s) ==> Events(s.done) == s.stored
  {}

  /**
   The promise in full, where it holds: with every kind registered beforehand, no throwing publisher and one
   flusher at a time, a drained outbox has published exactly the stored events, in store order.
   */
  lemma CleanRunsPublishInOrder(publishers: set<Kind>, acts: seq<Action>)
    requires Exec(publishers, acts).Some? && OneFlusher(publishers, acts) && Drained(Exec(publishers, acts).value)
    requires forall i :: 0 <= i < |acts| ==> (acts[i].Store? ==> acts[i].kind in publishers) && (acts[i].Deliver? ==> !acts[i].throws)
    ensures PublishedEvents(Exec(publishers, acts).value.done) == Exec(publishers, acts).value.stored
  {
    hide Exec, OneFlusher, Drained, PublishedEvents;
    CleanRunsPublish(publishers, acts);
    StoreOrder(publishers, acts);
    PublishedAmongEvents(Exec(publishers, acts).value.done);
  }

  // ----- the flush of the class is a run of the machine -----

  /** Delivering until batch f is empty. */
  function DeliverAll(s: State, f: nat, throws: Event -> bool): State
    requires f < |s.batches|
    decreases |s.batches[f]|
  {
    if s.batches[f] == [] then s
    else DeliverAll(Next(s, Deliver(f, throws(s.batches[f][0]))), f, throws)
  }

  lemma {:induction false} FlushIsARun(s: State, f: nat, throws: Event -> bool)
    requires f < |s.batches|
    ensures var t := DeliverAll(s, f, throws);
            && t.done == s.done + Fates(s.batches[f], s.publishers, throws)
            && t.pending == s.pending && t.stored == s.stored && t.publishers == s.publishers
            && t.batches == s.batches[f := []]
    decreases |s.batches[f]|
  {
    if s.batches[f] != [] {
      hide Next, Fates;
      DeliverFates(s, f, throws);
      FlushIsARun(Next(s, Deliver(f, throws(s.batches[f][0]))), f, throws);
    } else {
      assert s.batches[f := []] == s.batches;
    }
  }

  /** A whole flush of the machine, from taking the pending events out to the last delivery, does what the class's does. */
  lemma FlushRun(s: State, throws: Event -> bool)
    ensures var t := DeliverAll(Next(s, Begin), |s.batches|, throws);
            && t.pending == [] && t.stored == s.stored && t.publishers == s.publishers
            && t.done == s.done + Fates(s.pending, s.publishers, throws)
            && t.batches == s.batches + [[]]
  {
    hide Fates, DeliverAll;
    FlushIsARun(Next(s, Begin), |s.batches|, throws);
  }

  lemma DeliverFates(s: State, f: nat, throws: Event -> bool)
    requires f < |s.batches| && s.batches[f] != []
    ensures var t := Next(s, Deliver(f, throws(s.batches[f][0])));
            && t.pending == s.pending && t.stored == s.stored && t.publishers == s.publishers
            && |t.batches| == |s.batches| && |t.batches[f]| < |s.batches[f]|
            && t.batches[f := []] == s.batches[f := []]
            && t.done + Fates(t.batches[f], t.publishers, throws) == s.done + Fates(s.batches[f], s.publishers, throws)
  {
    hide Fates, AllDropped;
    var b := s.batches[f];
    var e, rest := b[0], b[1..];
    var t := Next(s, Deliver(f, throws(e)));
    assert t.batches[f := []] == s.batches[f := []];
    FatesStep(b, s.publishers, throws);
    FatesEmpty(s.publishers, throws);
    var tail := Fates(rest, s.publishers, throws);
    if e.kind !in s.publishers {
      Assoc(s.done, [Done(e, Unregistered)], tail);
    } else if throws(e) {
      Assoc(s.done, [Done(e, Threw)], AllDropped(rest));
    } else {
      Assoc(s.done, [Done(e, Published)], tail);
    }
  }

  lemma Assoc(a: seq<Done>, b: seq<Done>, c: seq<Done>)
    ensures (a + b) + c == a + (b + c) && (a + b + c) + [] == a + (b + c)
  {}

  lemma FatesEmpty(publishers: set<Kind>, throws: Event -> bool)
    ensures Fates([], publishers, throws) == []
  {}

  lemma FatesStep(b: seq<Event>, publishers: set<Kind>, throws: Event -> bool)
    requires b != []
    ensures Fates(b, publishers, throws) ==
              if b[0].kind !in publishers then [Done(b[0], Unregistered)] + Fates(b[1..], publishers, throws)
              else if throws(b[0]) then [Done(b[0], Threw)] + AllDropped(b[1..])
              else [Done(b[0], Published)] + Fates(b[1..], publishers, throws)
  {}
}
