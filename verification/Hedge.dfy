/**
 The hedged call: two threads race on one promise.

 Every atomic operation of the source is one step; any interleaving of steps is a run. What the callable
 returns or throws is an arbitrary choice made when it finishes. `writtenAt`, `readAt`, `winner`,
 `firstFailure` and `deliveredBy` record the run and are read by no step.
 */
module Hedge {
  import opened Options

  datatype Thread = Primary | Backup

  /** An exception: the callable's own, or the one a second write to the promise raises. */
  datatype Fault<+E> = Raised(e: E) | PromiseSatisfied

  datatype Promise<+V, +E> = Empty | Value(v: V) | Error(x: Option<Fault<E>>)

  /** What a thread's call of the callable did. */
  datatype Call<+V, +E> = NotFinished | Returned(v: V) | Threw(e: E)

  /** The operation a thread performs next, with the line it stands on. */
  datatype Pc<+V, +E> =
    | Asleep                              // 53: load cancelled
    | Calling                             // 31: the callable is running
    | Exchange(v: V)                      // 32: cancelled.exchange(true)
    | SetValue(v: V)                      // 33: promise.set_value
    | Count(e: Fault<E>)                  // 35: failures.fetch_add(1)
    | Record(e: Fault<E>)                 // 36: first_ex is written
    | Check                               // 38: load failures
    | Read                                // 40: first_ex is read
    | SetError(x: Option<Fault<E>>)       // 40: promise.set_exception
    | SkipCheck                           // 58: load failures
    | SkipRead                            // 60: first_ex is read
    | SkipSetError(x: Option<Fault<E>>)   // 60: promise.set_exception
    | Done

  datatype Local<+V, +E> = Local(pc: Pc<V, E>, call: Call<V, E>, readAt: Option<nat>)

  datatype Shared<+V, +E> = Shared(
    cancelled: bool,
    failures: nat,
    promise: Promise<V, E>,
    firstEx: Option<Fault<E>>,
    clock: nat,
    winner: Option<Thread>,
    firstFailure: Option<Fault<E>>,
    writtenAt: Option<nat>,
    deliveredBy: Option<Thread>)

  datatype State<+V, +E> = State(sh: Shared<V, E>, primary: Local<V, E>, backup: Local<V, E>) {
    function Of(t: Thread): Local<V, E> {
      if t.Primary? then primary else backup
    }
  }

  function Initial<V, E>(): State<V, E> {
    State(Shared(false, 0, Empty, None, 0, None, None, None, None),
          Local(Calling, NotFinished, None), Local(Asleep, NotFinished, None))
  }

  /** A step: the callable of a thread finishes, or a thread performs its next operation. */
  datatype Action<+V, +E> = Return(t: Thread, v: V) | Throw(t: Thread, e: E) | Advance(t: Thread)

  predicate Enabled<V, E>(s: State<V, E>, a: Action<V, E>) {
    var pc := s.Of(a.t).pc;
    if a.Advance? then !pc.Calling? && !pc.Done? else pc.Calling?
  }

  function Tick<V, E>(sh: Shared<V, E>): Shared<V, E> {
    sh.(clock := sh.clock + 1)
  }

  /** One operation of thread t. */
  function Operate<V, E>(sh: Shared<V, E>, l: Local<V, E>, t: Thread): (Shared<V, E>, Local<V, E>) {
    match l.pc
    case Asleep => (sh, l.(pc := if sh.cancelled then SkipCheck else Calling))
    case Exchange(v) =>
      if sh.cancelled then (sh, l.(pc := Done))
      else (sh.(cancelled := true, winner := Some(t)), l.(pc := SetValue(v)))
    case SetValue(v) =>
      if sh.promise.Empty? then (sh.(promise := Value(v)), l.(pc := Done))
      else (sh, l.(pc := Count(PromiseSatisfied)))
    case Count(e) =>
      (sh.(failures := sh.failures + 1, firstFailure := if sh.failures == 0 then Some(e) else sh.firstFailure),
       l.(pc := if sh.failures == 0 then Record(e) else Check))
    case Record(e) => (sh.(firstEx := Some(e), writtenAt := Some(sh.clock)), l.(pc := Check))
    case Check => (sh, l.(pc := if sh.failures >= 2 then Read else Done))
    case Read => (sh, l.(pc := SetError(sh.firstEx), readAt := Some(sh.clock)))
    case SetError(x) =>
      (if sh.promise.Empty? then sh.(promise := Error(x), deliveredBy := Some(t)) else sh, l.(pc := Done))
    case SkipCheck => (sh, l.(pc := if sh.failures == 1 then SkipRead else Done))
    case SkipRead => (sh, l.(pc := SkipSetError(sh.firstEx), readAt := Some(sh.clock)))
    case SkipSetError(x) =>
      (if sh.promise.Empty? then sh.(promise := Error(x), deliveredBy := Some(t)) else sh, l.(pc := Done))
    case Calling => (sh, l)
    case Done => (sh, l)
  }

  function Act<V, E>(sh: Shared<V, E>, l: Local<V, E>, a: Action<V, E>): (Shared<V, E>, Local<V, E>) {
    match a
    case Return(_, v) => (sh, l.(pc := Exchange(v), call := Returned(v)))
    case Throw(_, e) => (sh, l.(pc := Count(Raised(e)), call := Threw(e)))
    case Advance(t) => Operate(sh, l, t)
  }

  function Next<V, E>(s: State<V, E>, a: Action<V, E>): State<V, E> {
    var (sh, l) := Act(s.sh, s.Of(a.t), a);
    if a.t.Primary? then State(Tick(sh), l, s.backup) else State(Tick(sh), s.primary, l)
  }

  /** The state a run ends in, or `None` when some action of it was not enabled. */
  function Exec<V, E>(acts: seq<Action<V, E>>): Option<State<V, E>> {
    if acts == [] then Some(Initial())
    else
      var n := |acts| - 1;
      var s := Exec(acts[..n]);
      if s.Some? && Enabled(s.value, acts[n]) then Some(Next(s.value, acts[n])) else None
  }

  // ----- the invariant -----

  /** The thread has counted its failure. */
  predicate Failed<V, E>(l: Local<V, E>) {
    l.call.Threw? && !l.pc.Count?
  }

  /** The thread has performed its exchange. */
  predicate Exchanged<V, E>(l: Local<V, E>) {
    l.call.Returned? && !l.pc.Exchange?
  }

  predicate PendingFailure<V, E>(l: Local<V, E>) {
    l.pc.Record? || l.pc.Check? || l.pc.Read? || l.pc.SetError?
  }

  /** The program counter fits what the call did, and the backup's skip branch never reads or writes. */
  ghost predicate LocalInv<V, E>(sh: Shared<V, E>, l: Local<V, E>, t: Thread) {
    match l.pc
    case Asleep => t.Backup? && l.call.NotFinished?
    case Calling => l.call.NotFinished?
    case Exchange(v) => l.call == Returned(v)
    case SetValue(v) => l.call == Returned(v) && sh.winner == Some(t) && sh.promise.Empty?
    case Count(e) => l.call.Threw? && e == Raised(l.call.e)
    case Record(e) => l.call.Threw? && sh.firstFailure == Some(e) && e == Raised(l.call.e) && sh.firstEx.None?
    case Check => l.call.Threw?
    case Read => l.call.Threw? && sh.failures == 2
    case SetError(x) => l.call.Threw? && sh.failures == 2 && ReadInv(sh, l, x)
    case SkipCheck => t.Backup? && l.call.NotFinished? && sh.cancelled
    case SkipRead => false
    case SkipSetError(_) => false
    case Done => (l.call.NotFinished? ==> sh.cancelled) && (l.call.Threw? ==> sh.failures >= 1)
  }

  /** What was read from first_ex, and whether the write came before. */
  ghost predicate ReadInv<V, E>(sh: Shared<V, E>, l: Local<V, E>, x: Option<Fault<E>>) {
    && l.readAt.Some? && l.readAt.value < sh.clock
    && x == (if sh.writtenAt.Some? && sh.writtenAt.value < l.readAt.value then sh.firstFailure else None)
  }

  function Count1(b: bool): nat {
    if b then 1 else 0
  }

  ghost predicate SharedInv<V, E>(s: State<V, E>) {
    var sh := s.sh;
    && sh.failures == Count1(Failed(s.primary)) + Count1(Failed(s.backup))
    && (sh.cancelled <==> Exchanged(s.primary) || Exchanged(s.backup))
    && (sh.cancelled <==> sh.winner.Some?)
    && (sh.failures >= 1 <==> sh.firstFailure.Some?)
    && (sh.firstEx.Some? <==> sh.writtenAt.Some?)
    && (sh.firstEx.Some? ==> sh.firstEx == sh.firstFailure && sh.writtenAt.value < sh.clock)
    && (sh.failures >= 1 && sh.firstEx.None? ==> s.primary.pc.Record? || s.backup.pc.Record?)
    && !(s.primary.pc.Record? && s.backup.pc.Record?)
  }

  ghost predicate WinnerInv<V, E>(s: State<V, E>, t: Thread) {
    s.sh.winner == Some(t) ==>
      var l := s.Of(t);
      && l.call.Returned?
      && (if l.pc.Done? then s.sh.promise == Value(l.call.v) else l.pc == SetValue(l.call.v))
  }

  ghost predicate PromiseInv<V, E>(s: State<V, E>) {
    var sh := s.sh;
    && (sh.promise.Value? ==> sh.winner.Some?)
    && (sh.promise.Error? ==>
          && sh.failures == 2 && sh.deliveredBy.Some?
          && s.Of(sh.deliveredBy.value).pc.Done? && ReadInv(sh, s.Of(sh.deliveredBy.value), sh.promise.x))
    && (sh.failures == 2 && sh.promise.Empty? ==> PendingFailure(s.primary) || PendingFailure(s.backup))
  }

  ghost predicate Inv<V, E>(s: State<V, E>) {
    && LocalInv(s.sh, s.primary, Primary) && LocalInv(s.sh, s.backup, Backup)
    && SharedInv(s) && WinnerInv(s, Primary) && WinnerInv(s, Backup) && PromiseInv(s)
  }

  lemma InvInitial<V, E>()
    ensures Inv(Initial<V, E>())
  {}

  lemma InvNext<V, E>(s: State<V, E>, a: Action<V, E>)
    requires Inv(s) && Enabled(s, a)
    ensures Inv(Next(s, a))
  {
    hide Inv, Next;
    var pc := s.Of(a.t).pc;
    if a.Return? || a.Throw? {
      InvCallEnds(s, a);
    } else if pc.Asleep? || pc.SkipCheck? || pc.SkipRead? || pc.SkipSetError? {
      InvSkip(s, a);
    } else if pc.Exchange? {
      InvExchange(s, a);
    } else if pc.SetValue? {
      InvSetValue(s, a);
    } else if pc.Count? {
      InvCount(s, a);
    } else if pc.Record? {
      InvRecord(s, a);
    } else if pc.Check? {
      InvCheck(s, a);
    } else if pc.Read? {
      InvRead(s, a);
    } else {
      InvSetError(s, a);
    }
  }

  lemma InvCallEnds<V, E>(s: State<V, E>, a: Action<V, E>)
    requires Inv(s) && Enabled(s, a) && !a.Advance?
    ensures Inv(Next(s, a))
  {
    hide Inv, Next;
    if a.t.Primary? {
      InvCallEndsPrimary(s, a);
    } else {
      InvCallEndsBackup(s, a);
    }
  }

  lemma InvCallEndsPrimary<V, E>(s: State<V, E>, a: Action<V, E>)
    requires Inv(s) && Enabled(s, a) && a.t.Primary? && !a.Advance?
    ensures Inv(Next(s, a))
  {}

  lemma InvCallEndsBackup<V, E>(s: State<V, E>, a: Action<V, E>)
    requires Inv(s) && Enabled(s, a) && a.t.Backup? && !a.Advance?
    ensures Inv(Next(s, a))
  {}

  /** The backup's skip path: lines 59 to 62 are never reached. */
  lemma InvSkip<V, E>(s: State<V, E>, a: Action<V, E>)
    requires Inv(s) && Enabled(s, a) && a.Advance?
    requires var pc := s.Of(a.t).pc; pc.Asleep? || pc.SkipCheck? || pc.SkipRead? || pc.SkipSetError?
    ensures Inv(Next(s, a))
  {}

  lemma InvExchange<V, E>(s: State<V, E>, a: Action<V, E>)
    requires Inv(s) && Enabled(s, a) && a.Advance? && s.Of(a.t).pc.Exchange?
    ensures Inv(Next(s, a))
  {
    hide Inv, Next;
    if a.t.Primary? {
      InvExchangePrimary(s, a);
    } else {
      InvExchangeBackup(s, a);
    }
  }

  lemma InvExchangePrimary<V, E>(s: State<V, E>, a: Action<V, E>)
    requires Inv(s) && Enabled(s, a) && a.t.Primary? && a.Advance? && s.primary.pc.Exchange?
    ensures Inv(Next(s, a))
  {}

  lemma InvExchangeBackup<V, E>(s: State<V, E>, a: Action<V, E>)
    requires Inv(s) && Enabled(s, a) && a.t.Backup? && a.Advance? && s.backup.pc.Exchange?
    ensures Inv(Next(s, a))
  {}

  lemma InvSetValue<V, E>(s: State<V, E>, a: Action<V, E>)
    requires Inv(s) && Enabled(s, a) && a.Advance? && s.Of(a.t).pc.SetValue?
    ensures Inv(Next(s, a))
  {}

  lemma InvCount<V, E>(s: State<V, E>, a: Action<V, E>)
    requires Inv(s) && Enabled(s, a) && a.Advance? && s.Of(a.t).pc.Count?
    ensures Inv(Next(s, a))
  {
    hide Inv, Next;
    if a.t.Primary? {
      InvCountPrimary(s, a);
    } else {
      InvCountBackup(s, a);
    }
  }

  lemma InvCountPrimary<V, E>(s: State<V, E>, a: Action<V, E>)
    requires Inv(s) && Enabled(s, a) && a.t.Primary? && a.Advance? && s.primary.pc.Count?
    ensures Inv(Next(s, a))
  {}

  lemma InvCountBackup<V, E>(s: State<V, E>, a: Action<V, E>)
    requires Inv(s) && Enabled(s, a) && a.t.Backup? && a.Advance? && s.backup.pc.Count?
    ensures Inv(Next(s, a))
  {}

  lemma InvRecord<V, E>(s: State<V, E>, a: Action<V, E>)
    requires Inv(s) && Enabled(s, a) && a.Advance? && s.Of(a.t).pc.Record?
    ensures Inv(Next(s, a))
  {
    hide Inv, Next;
    if a.t.Primary? {
      InvRecordPrimary(s, a);
    } else {
      InvRecordBackup(s, a);
    }
  }

  lemma InvRecordPrimary<V, E>(s: State<V, E>, a: Action<V, E>)
    requires Inv(s) && Enabled(s, a) && a.t.Primary? && a.Advance? && s.primary.pc.Record?
    ensures Inv(Next(s, a))
  {}

  lemma InvRecordBackup<V, E>(s: State<V, E>, a: Action<V, E>)
    requires Inv(s) && Enabled(s, a) && a.t.Backup? && a.Advance? && s.backup.pc.Record?
    ensures Inv(Next(s, a))
  {}

  lemma InvCheck<V, E>(s: State<V, E>, a: Action<V, E>)
    requires Inv(s) && Enabled(s, a) && a.Advance? && s.Of(a.t).pc.Check?
    ensures Inv(Next(s, a))
  {
    hide Inv, Next;
    if a.t.Primary? {
      InvCheckPrimary(s, a);
    } else {
      InvCheckBackup(s, a);
    }
  }

  lemma InvCheckPrimary<V, E>(s: State<V, E>, a: Action<V, E>)
    requires Inv(s) && Enabled(s, a) && a.t.Primary? && a.Advance? && s.primary.pc.Check?
    ensures Inv(Next(s, a))
  {}

  lemma InvCheckBackup<V, E>(s: State<V, E>, a: Action<V, E>)
    requires Inv(s) && Enabled(s, a) && a.t.Backup? && a.Advance? && s.backup.pc.Check?
    ensures Inv(Next(s, a))
  {}

  lemma InvRead<V, E>(s: State<V, E>, a: Action<V, E>)
    requires Inv(s) && Enabled(s, a) && a.Advance? && s.Of(a.t).pc.Read?
    ensures Inv(Next(s, a))
  {
    hide Inv, Next;
    if a.t.Primary? {
      InvReadPrimary(s, a);
    } else {
      InvReadBackup(s, a);
    }
  }

  lemma InvReadPrimary<V, E>(s: State<V, E>, a: Action<V, E>)
    requires Inv(s) && Enabled(s, a) && a.t.Primary? && a.Advance? && s.primary.pc.Read?
    ensures Inv(Next(s, a))
  {}

  lemma InvReadBackup<V, E>(s: State<V, E>, a: Action<V, E>)
    requires Inv(s) && Enabled(s, a) && a.t.Backup? && a.Advance? && s.backup.pc.Read?
    ensures Inv(Next(s, a))
  {}

  lemma InvSetError<V, E>(s: State<V, E>, a: Action<V, E>)
    requires Inv(s) && Enabled(s, a) && a.Advance? && s.Of(a.t).pc.SetError?
    ensures Inv(Next(s, a))
  {
    hide Inv, Next;
    if a.t.Primary? {
      InvSetErrorPrimary(s, a);
    } else {
      InvSetErrorBackup(s, a);
    }
  }

  lemma InvSetErrorPrimary<V, E>(s: State<V, E>, a: Action<V, E>)
    requires Inv(s) && Enabled(s, a) && a.Advance? && a.t.Primary? && s.primary.pc.SetError?
    ensures Inv(Next(s, a))
  {}

  lemma InvSetErrorBackup<V, E>(s: State<V, E>, a: Action<V, E>)
    requires Inv(s) && Enabled(s, a) && a.Advance? && a.t.Backup? && s.backup.pc.SetError?
    ensures Inv(Next(s, a))
  {}

  lemma {:induction false} RunsKeepInv<V, E>(acts: seq<Action<V, E>>)
    requires Exec(acts).Some?
    ensures Inv(Exec(acts).value)
  {
    hide Inv, Next;
    if acts == [] {
      InvInitial<V, E>();
    } else {
      var n := |acts| - 1;
      RunsKeepInv(acts[..n]);
      InvNext(Exec(acts[..n]).value, acts[n]);
    }
  }

  // ----- what every run guarantees -----

  /** `set_value` never finds the promise satisfied, and the branch at lines 59 to 62 is unreachable. */
  lemma DeadBranches<V, E>(acts: seq<Action<V, E>>, t: Thread)
    requires Exec(acts).Some?
    ensures var s := Exec(acts).value;
            && (s.Of(t).pc.SetValue? ==> s.sh.promise.Empty?)
            && !s.Of(t).pc.SkipRead? && !s.Of(t).pc.SkipSetError?
  {
    hide Exec;
    RunsKeepInv(acts);
  }

  /** The thread is about to write to the promise. */
  predicate Writing<V, E>(l: Local<V, E>) {
    l.pc.SetValue? || l.pc.SetError? || l.pc.SkipSetError?
  }

  /**
   Once a value is delivered no thread ever attempts another write. Once an error is delivered the only
   attempt that can follow is the set_exception of the thread that did not deliver it. Either way the
   promise stays as it is.
   */
  lemma {:induction false} FulfilledOnce<V, E>(acts: seq<Action<V, E>>, more: seq<Action<V, E>>, t: Thread)
    requires Exec(acts + more).Some?
    ensures Exec(acts).Some?
    ensures var p, s := Exec(acts).value.sh.promise, Exec(acts + more).value;
            && (!p.Empty? ==> s.sh.promise == p)
            && (p.Value? ==> !Writing(s.Of(t)))
            && (p.Error? && Writing(s.Of(t)) ==> s.Of(t).pc.SetError? && s.sh.deliveredBy == Some(Other(t)))
  {
    hide Inv, Next;
    if more == [] {
      assert acts + more == acts;
    } else {
      var n := |more| - 1;
      assert (acts + more)[..|acts| + n] == acts + more[..n];
      FulfilledOnce(acts, more[..n], t);
      StepKeepsPromise(Exec(acts + more[..n]).value, more[n]);
    }
    WritesMeet(acts + more, t);
  }

  function Other(t: Thread): Thread {
    if t.Primary? then Backup else Primary
  }

  lemma StepKeepsPromise<V, E>(s: State<V, E>, a: Action<V, E>)
    ensures !s.sh.promise.Empty? ==> Next(s, a).sh.promise == s.sh.promise
  {}

  /** What a thread that is about to write finds in the promise: a value never, an error only from the other thread. */
  lemma WritesMeet<V, E>(acts: seq<Action<V, E>>, t: Thread)
    requires Exec(acts).Some?
    ensures var s := Exec(acts).value;
            Writing(s.Of(t)) ==>
              && !s.sh.promise.Value?
              && (s.sh.promise.Error? ==> s.Of(t).pc.SetError? && s.sh.deliveredBy == Some(Other(t)))
  {
    hide Exec;
    RunsKeepInv(acts);
  }

  predicate BothDone<V, E>(s: State<V, E>) {
    s.primary.pc.Done? && s.backup.pc.Done?
  }

  /**
   When both threads have finished the promise is fulfilled: with a value exactly when some call returned
   normally, then with the value of the thread that won the exchange; otherwise both calls threw.
   */
  lemma Outcome<V, E>(acts: seq<Action<V, E>>)
    requires Exec(acts).Some? && BothDone(Exec(acts).value)
    ensures var s := Exec(acts).value;
            && !s.sh.promise.Empty?
            && (s.sh.promise.Value? <==> s.primary.call.Returned? || s.backup.call.Returned?)
            && (s.sh.promise.Value? ==>
                  && s.sh.winner.Some? && s.Of(s.sh.winner.value).call == Returned(s.sh.promise.v))
            && (s.sh.promise.Error? ==> s.primary.call.Threw? && s.backup.call.Threw?)
  {
    hide Exec;
    RunsKeepInv(acts);
    var s := Exec(acts).value;
    if s.sh.winner.Some? {
      var t := s.sh.winner.value;
      assert WinnerInv(s, t) by {
        match t { case Primary => case Backup => }
      }
    }
  }

  /**
   An error is delivered only after both calls threw. It is the first exception exactly when the write of
   `first_ex` came before the delivering thread read it; otherwise it is the null exception pointer.
   */
  lemma ErrorDelivered<V, E>(acts: seq<Action<V, E>>)
    requires Exec(acts).Some? && Exec(acts).value.sh.promise.Error?
    ensures var sh := Exec(acts).value.sh;
            && Exec(acts).value.primary.call.Threw? && Exec(acts).value.backup.call.Threw?
            && sh.firstFailure.Some? && sh.deliveredBy.Some?
            && var readAt := Exec(acts).value.Of(sh.deliveredBy.value).readAt;
            && readAt.Some?
            && (sh.promise.x == sh.firstFailure <==> sh.writtenAt.Some? && sh.writtenAt.value < readAt.value)
            && (sh.promise.x.None? <==> !(sh.writtenAt.Some? && sh.writtenAt.value < readAt.value))
  {
    hide Exec;
    RunsKeepInv(acts);
  }

  /** The backup has not called and never will. */
  predicate Skipping<V, E>(s: State<V, E>) {
    && s.sh.cancelled && s.backup.call.NotFinished?
    && (s.backup.pc.Asleep? || s.backup.pc.SkipCheck? || s.backup.pc.SkipRead? || s.backup.pc.SkipSetError? || s.backup.pc.Done?)
  }

  /** A backup that wakes calls exactly if nobody has won the exchange yet. */
  lemma BackupWakes<V, E>(s: State<V, E>)
    requires s.backup.pc.Asleep?
    ensures Enabled(s, Advance(Backup))
    ensures Next(s, Advance(Backup)).backup.pc.Calling? <==> !s.sh.cancelled
  {}

  /** Once the exchange is won while the backup sleeps, the backup never calls, whatever steps follow. */
  lemma {:induction false} BackupSkipped<V, E>(acts: seq<Action<V, E>>, more: seq<Action<V, E>>)
    requires Exec(acts + more).Some? && Exec(acts).Some?
    requires Exec(acts).value.sh.cancelled && Exec(acts).value.backup.pc.Asleep?
    ensures Skipping(Exec(acts + more).value)
  {
    hide Next, Skipping, Inv;
    if more == [] {
      assert acts + more == acts;
      RunsKeepInv(acts);
      SkippingStarts(Exec(acts).value);
    } else {
      var n := |more| - 1;
      assert (acts + more)[..|acts| + n] == acts + more[..n];
      BackupSkipped(acts, more[..n]);
      SkippingStep(Exec(acts + more[..n]).value, more[n]);
    }
  }

  lemma SkippingStarts<V, E>(s: State<V, E>)
    requires Inv(s) && s.sh.cancelled && s.backup.pc.Asleep?
    ensures Skipping(s)
  {}

  lemma SkippingStep<V, E>(s: State<V, E>, a: Action<V, E>)
    requires Skipping(s) && Enabled(s, a)
    ensures Skipping(Next(s, a))
  {}

  /** A run in which both calls throw and the caller is given the null exception pointer. */
  lemma FirstExceptionCanBeLost<V, E>(e1: E, e2: E)
    ensures exists acts: seq<Action<V, E>> ::
              Exec(acts).Some? && Exec(acts).value.sh.firstFailure == Some(Raised(e1)) && Exec(acts).value.sh.promise == Error(None)
  {
    var acts := NullDelivered<V, E>(e1, e2);
    assert Exec(acts).value.sh.promise == Error(None);
  }

  /**
   Both threads can attempt set_exception: the second finds the promise satisfied, which the handler at line
   41 catches. No run is longer than this one.
   */
  lemma SetExceptionTwice<V, E>(e1: E, e2: E)
    ensures exists acts: seq<Action<V, E>> ::
              && |acts| == 11 && Exec(acts).Some? && Exec(acts).value.sh.promise.Error?
              && Exec(acts).value.primary.pc.SetError? && Exec(acts + [Advance(Primary)]).Some?
              && BothDone(Exec(acts + [Advance(Primary)]).value)
  {
    var a8 := NullDelivered<V, E>(e1, e2);
    var a11 := PrimaryCatchesUp(a8);
    hide Next;
    assert (a11 + [Advance(Primary)])[..11] == a11;
    LastWrite(Exec(a11).value);
  }

  lemma PrimaryCatchesUp<V, E>(a8: seq<Action<V, E>>) returns (acts: seq<Action<V, E>>)
    requires Exec(a8).Some?
    requires var s := Exec(a8).value;
             s.primary.pc.Record? && s.backup.pc.Done? && s.sh.failures == 2 && s.sh.promise.Error?
    ensures |acts| == |a8| + 3 && Exec(acts).Some?
    ensures var s := Exec(acts).value; s.primary.pc.SetError? && s.backup.pc.Done? && s.sh.promise.Error?
  {
    hide Exec;
    var a9 := Extend(a8, Advance(Primary));
    var a10 := Extend(a9, Advance(Primary));
    acts := Extend(a10, Advance(Primary));
  }

  lemma LastWrite<V, E>(s: State<V, E>)
    requires s.primary.pc.SetError? && s.backup.pc.Done?
    ensures Enabled(s, Advance(Primary)) && BothDone(Next(s, Advance(Primary)))
  {}

  /** The backup reads and delivers before the primary records its exception. */
  lemma NullDelivered<V, E>(e1: E, e2: E) returns (acts: seq<Action<V, E>>)
    ensures |acts| == 8 && Exec(acts).Some?
    ensures var s := Exec(acts).value;
            && s.sh.failures == 2 && s.sh.promise == Error(None) && s.sh.firstFailure == Some(Raised(e1))
            && s.primary.pc.Record? && s.backup.pc.Done?
  {
    hide Exec;
    var a5 := BothCounted<V, E>(e1, e2);
    var a6 := Extend(a5, Advance(Backup));
    var a7 := Extend(a6, Advance(Backup));
    acts := Extend(a7, Advance(Backup));
  }

  /** The primary has counted its failure but not yet recorded it when the backup counts its own. */
  lemma BothCounted<V, E>(e1: E, e2: E) returns (acts: seq<Action<V, E>>)
    ensures |acts| == 5 && Exec(acts).Some?
    ensures var s := Exec(acts).value;
            && s.sh.failures == 2 && s.sh.firstEx.None? && s.sh.promise.Empty? && s.backup.pc.Check?
            && s.sh.firstFailure == Some(Raised(e1)) && s.primary.pc.Record?
  {
    assert Exec<V, E>([]) == Some(Initial());
    hide Exec;
    var a1 := Extend([], Throw(Primary, e1));
    var a2 := Extend(a1, Advance(Primary));
    var a3 := Extend(a2, Advance(Backup));
    var a4 := Extend(a3, Throw(Backup, e2));
    acts := Extend(a4, Advance(Backup));
  }

  lemma Extend<V, E>(acts: seq<Action<V, E>>, a: Action<V, E>) returns (acts': seq<Action<V, E>>)
    requires Exec(acts).Some? && Enabled(Exec(acts).value, a)
    ensures acts' == acts + [a] && Exec(acts') == Some(Next(Exec(acts).value, a))
  {
    acts' := acts + [a];
    assert acts'[..|acts|] == acts;
  }

  // ----- every run can finish, and soon does -----

  /** The most steps a thread can still take, apart from recording the first exception. */
  function Remaining<V, E>(pc: Pc<V, E>): nat {
    match pc
    case Asleep => 6
    case Calling => 5
    case Exchange(_) => 2
    case SetValue(_) => 1
    case Count(_) => 4
    case Record(_) => 4
    case Check => 3
    case Read => 2
    case SetError(_) => 1
    case SkipCheck => 3
    case SkipRead => 2
    case SkipSetError(_) => 1
    case Done => 0
  }

  /** The most steps that can still be taken; only the first failure is recorded. */
  function Fuel<V, E>(s: State<V, E>): nat {
    Remaining(s.primary.pc) + Remaining(s.backup.pc) + Count1(s.sh.failures == 0)
  }

  /** No run has more than twelve steps, and the run of `SetExceptionTwice` has as many. */
  lemma {:induction false} RunsTerminate<V, E>(acts: seq<Action<V, E>>)
    requires Exec(acts).Some?
    ensures |acts| + Fuel(Exec(acts).value) <= 12
  {
    hide Inv, Next, Fuel;
    if acts != [] {
      var n := |acts| - 1;
      RunsTerminate(acts[..n]);
      RunsKeepInv(acts[..n]);
      StepShrinks(Exec(acts[..n]).value, acts[n]);
    } else {
      InitialFuel<V, E>();
    }
  }

  lemma InitialFuel<V, E>()
    ensures Fuel(Initial<V, E>()) == 12
  {}

  lemma StepShrinks<V, E>(s: State<V, E>, a: Action<V, E>)
    requires Inv(s) && Enabled(s, a)
    ensures Fuel(Next(s, a)) < Fuel(s)
  {}

  /** As long as a thread is not done, some step can be taken. */
  lemma NeverStuck<V, E>(s: State<V, E>, v: V)
    requires !BothDone(s)
    ensures exists a: Action<V, E> :: Enabled(s, a)
  {
    var t := if s.primary.pc.Done? then Backup else Primary;
    if s.Of(t).pc.Calling? {
      assert Enabled(s, Return(t, v));
    } else {
      var a: Action<V, E> := Advance(t);
      assert Enabled(s, a);
    }
  }
}
