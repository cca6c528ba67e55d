/**
 Destroying the pool. The flag is stored and broadcast without the lock, so a worker that
 has already read it as zero may go to sleep after the broadcast and never leave.
 */
module ThreadPoolShutdown {
  import opened Seqs
  import opened ThreadPool
  import Progress = ThreadPoolProgress

  // ----- At most one more job -----

  predicate PastCheck(pc: WorkerPc) {
    pc.Count? || pc.Take?
  }

  /** The worker, if any, that passed the second read of shutdown before the store. */
  predicate Committed(s: State) {
    exists w :: 0 <= w < |s.workers| && PastCheck(s.workers[w])
  }

  /** After the store a step commits nobody; it takes a job only if it spends a commitment. */
  lemma CommitmentStep(s: State, e: Event)
    requires Inv(s) && s.shutdown && Enabled(s, e)
    ensures var t := Do(s, e);
            && t.shutdown
            && (Committed(t) ==> Committed(s) && t.taken == s.taken && t.list == s.list)
            && (t.taken != s.taken ==>
                  Committed(s) && !Committed(t) && s.list != [] && t.taken == s.taken + [s.list[0]])
  {
    var t := Do(s, e);
    if Committed(t) {
      var w :| 0 <= w < |t.workers| && PastCheck(t.workers[w]);
      assert PastCheck(s.workers[w]);
      assert s.lock == ByWorker(w);
    }
  }

  /**
   Once shutdown is stored at most one further job is ever unlinked: the head of the queue,
   and only when a worker had already passed its second read of the flag.
   */
  lemma {:induction false} AtMostOneMoreJob(s: State, es: seq<Event>)
    requires Inv(s) && s.shutdown && Legal(s, es)
    ensures Run(s, es).shutdown
    ensures Run(s, es).taken == s.taken
            || (Committed(s) && s.list != [] && Run(s, es).taken == s.taken + [s.list[0]])
    decreases |es|
  {
    if es != [] {
      CommitmentStep(s, es[0]);
      InvStep(s, es[0]);
      AtMostOneMoreJob(Do(s, es[0]), es[1..]);
    }
  }

  // ----- When every worker leaves -----

  /** A worker that will sleep after having read the flag as zero. */
  predicate Doomed(s: State, w: nat)
    requires w < |s.workers|
  {
    s.workers[w].BeforeWait? || (s.workers[w].TestCount? && s.workernum == 0)
  }

  predicate NoneDoomed(s: State) {
    forall w :: 0 <= w < |s.workers| ==> !Doomed(s, w)
  }

  /** The broadcast has fired, nobody sleeps and nobody is going to. */
  predicate Leaving(s: State) {
    s.shutdown && s.destroyer.Joining? && NobodyWaits(s) && NoneDoomed(s)
  }

  lemma LeavingStep(s: State, e: Event)
    requires Inv(s) && Leaving(s) && Enabled(s, e)
    ensures Leaving(Do(s, e))
  {
    var t := Do(s, e);
    forall w | 0 <= w < |t.workers| ensures !t.workers[w].Waiting? && !Doomed(t, w) {
      assert !s.workers[w].Waiting? && !Doomed(s, w);
      assert WorkerInside(s.workers[w]) <==> s.lock == ByWorker(w);
    }
  }

  lemma {:induction false} LeavingRun(s: State, es: seq<Event>)
    requires Inv(s) && Leaving(s) && Legal(s, es)
    ensures Inv(Run(s, es)) && Leaving(Run(s, es))
    decreases |es|
  {
    if es != [] {
      LeavingStep(s, es[0]);
      InvStep(s, es[0]);
      LeavingRun(Do(s, es[0]), es[1..]);
    }
  }

  /** A step of the threads themselves or of destroy: no new submission, no spurious wakeup. */
  predicate Closing(e: Event) {
    Progress.Internal(e) || e.Store? || e.Broadcast? || e.Join?
  }

  ghost predicate Stopped(s: State) {
    forall e :: Closing(e) ==> !Enabled(s, e)
  }

  predicate AllJoined(s: State) {
    && s.destroyer == Joining(|s.workers|)
    && forall w :: 0 <= w < |s.workers| ==> s.workers[w].Exited?
  }

  lemma StoppedLeaversHaveJoined(s: State)
    requires Inv(s) && Leaving(s) && Stopped(s)
    ensures AllJoined(s)
  {
    if !s.lock.Free? { var e := Progress.OwnerMoves(s); }
    forall w | 0 <= w < |s.workers| ensures s.workers[w].Exited? {
      assert !Enabled(s, WorkerStep(w));
    }
    assert !Enabled(s, Join);
  }

  function JoinsLeft(s: State): nat
    requires s.destroyer.Joining? && s.destroyer.next <= |s.workers|
  {
    |s.workers| - s.destroyer.next
  }

  lemma ClosingDecreases(s: State, e: Event)
    requires Inv(s) && s.destroyer.Joining? && Enabled(s, e) && Closing(e)
    ensures Inv(Do(s, e)) && Do(s, e).destroyer.Joining?
    ensures Progress.Measure(Do(s, e)) + JoinsLeft(Do(s, e)) < Progress.Measure(s) + JoinsLeft(s)
  {
    if Progress.Internal(e) {
      Progress.InternalDecreases(s, e);
      assert Do(s, e).destroyer == s.destroyer && |Do(s, e).workers| == |s.workers|;
    } else {
      InvStep(s, e);
    }
  }

  /** Without new submissions, closing takes a bounded number of steps. */
  lemma {:induction false} ClosingIsBounded(s: State, es: seq<Event>)
    requires Inv(s) && s.destroyer.Joining? && Legal(s, es)
    requires forall i :: 0 <= i < |es| ==> Closing(es[i])
    ensures |es| <= Progress.Measure(s) + JoinsLeft(s)
    decreases |es|
  {
    if es != [] {
      ClosingDecreases(s, es[0]);
      ClosingIsBounded(Do(s, es[0]), es[1..]);
    }
  }

  lemma {:induction false} RunToStop(s: State) returns (es: seq<Event>)
    requires Inv(s) && s.destroyer.Joining?
    ensures Legal(s, es) && Stopped(Run(s, es))
    ensures forall i :: 0 <= i < |es| ==> Closing(es[i])
    decreases Progress.Measure(s) + JoinsLeft(s)
  {
    if Stopped(s) {
      es := [];
    } else {
      var e :| Closing(e) && Enabled(s, e);
      ClosingDecreases(s, e);
      var rest := RunToStop(Do(s, e));
      es := [e] + rest;
      assert es[1..] == rest;
    }
  }

  // ----- When a worker is left behind -----

  predicate AddersIdle(s: State) {
    forall a :: 0 <= a < |s.adders| ==> s.adders[a].Idle?
  }

  /** Worker w sleeps for good: nobody will signal or broadcast again. */
  predicate LeftBehind(s: State, w: nat) {
    && w < |s.workers| && s.destroyer.Joining? && AddersIdle(s)
    && (s.workers[w].Waiting? || Doomed(s, w))
  }

  lemma LeftBehindStep(s: State, w: nat, e: Event)
    requires Inv(s) && LeftBehind(s, w) && Enabled(s, e) && Closing(e)
    ensures LeftBehind(Do(s, e), w)
  {
    if !s.workers[w].Waiting? {
      assert s.lock == ByWorker(w);
    }
  }

  /** Without a new signal such a worker never exits, and the destroyer never gets past joining it. */
  lemma {:induction false} LeftBehindForever(s: State, w: nat, es: seq<Event>)
    requires Inv(s) && LeftBehind(s, w) && Legal(s, es)
    requires forall i :: 0 <= i < |es| ==> Closing(es[i])
    ensures var t := Run(s, es);
            LeftBehind(t, w) && !t.workers[w].Exited? && t.destroyer.next <= w
    decreases |es|
  {
    if es == [] {
      assert !s.workers[w].Exited?;
    } else {
      LeftBehindStep(s, w, es[0]);
      InvStep(s, es[0]);
      LeftBehindForever(Do(s, es[0]), w, es[1..]);
    }
  }

  // ----- When an adder comes to the rescue -----

  /** Some adder has yet to take the lock, so its signal comes after whoever is inside has left. */
  predicate Coming(s: State) {
    exists a :: 0 <= a < |s.adders| && s.adders[a].WantLock?
  }

  /** After the broadcast only worker w may sleep or be about to, and then a signal is on its way. */
  predicate Rescued(s: State, w: nat) {
    && w < |s.workers| && s.shutdown && s.destroyer.Joining?
    && (forall v :: 0 <= v < |s.workers| && v != w ==> !s.workers[v].Waiting? && !Doomed(s, v))
    && (s.workers[w].Waiting? ==> !AddersIdle(s))
    && (Doomed(s, w) ==> Coming(s))
  }

  /** An adder keeps being at work until it signals, and then a sleeper is woken. */
  lemma AddersKeepWorking(s: State, w: nat, e: Event)
    requires Rescued(s, w) && Enabled(s, e) && !AddersIdle(s)
    ensures AddersIdle(Do(s, e)) ==> !Do(s, e).workers[w].Waiting? || Doomed(s, w)
  {
    var t := Do(s, e);
    var a :| 0 <= a < |s.adders| && !s.adders[a].Idle?;
    if t.adders[a].Idle? {
      assert (e.Notify? || e.NotifyNobody?) && e.a == a;
      assert e.Notify? && s.workers[w].Waiting? ==> e.w == w;
    }
  }

  /** Nobody takes the lock from a worker that is inside. */
  lemma ComingStays(s: State, e: Event)
    requires LockInv(s) && s.lock.ByWorker? && Enabled(s, e) && Coming(s)
    ensures Coming(Do(s, e)) && !AddersIdle(Do(s, e))
  {
    var a :| 0 <= a < |s.adders| && s.adders[a].WantLock?;
    assert Do(s, e).adders[a].WantLock?;
  }

  /** After the broadcast nobody comes to sleep or to be about to, but whoever was about to. */
  lemma NobodyElseSleeps(s: State, v: nat, e: Event)
    requires LockInv(s) && s.shutdown && v < |s.workers| && Enabled(s, e)
    ensures Do(s, e).workers[v].Waiting? ==> s.workers[v].Waiting? || Doomed(s, v)
    ensures Doomed(Do(s, e), v) ==> Doomed(s, v)
  {
    assert WorkerInside(s.workers[v]) <==> s.lock == ByWorker(v);
  }

  lemma RescuedStep(s: State, w: nat, e: Event)
    requires LockInv(s) && Rescued(s, w) && Enabled(s, e)
    ensures Rescued(Do(s, e), w)
  {
    var t := Do(s, e);
    forall v | 0 <= v < |t.workers| && v != w ensures !t.workers[v].Waiting? && !Doomed(t, v) {
      NobodyElseSleeps(s, v, e);
    }
    NobodyElseSleeps(s, w, e);
    if Doomed(s, w) {
      assert s.lock == ByWorker(w);
      ComingStays(s, e);
    } else if s.workers[w].Waiting? {
      AddersKeepWorking(s, w, e);
    }
    hide LockInv, Do, Enabled, Doomed, AddersIdle, Coming;
    assert t.shutdown && t.destroyer.Joining? && |t.workers| == |s.workers| by {
      ShutdownStays(s, e);
    }
  }

  lemma ShutdownStays(s: State, e: Event)
    requires s.shutdown && s.destroyer.Joining? && Enabled(s, e)
    ensures Do(s, e).shutdown && Do(s, e).destroyer.Joining? && |Do(s, e).workers| == |s.workers|
  {
  }

  lemma {:induction false} RescuedRun(s: State, w: nat, es: seq<Event>)
    requires Inv(s) && Rescued(s, w) && Legal(s, es)
    ensures Inv(Run(s, es)) && Rescued(Run(s, es), w)
    decreases |es|
  {
    if es != [] {
      RescuedStep(s, w, es[0]);
      InvStep(s, es[0]);
      RescuedRun(Do(s, es[0]), w, es[1..]);
    }
  }

  lemma StoppedRescuedLeave(s: State, w: nat)
    requires Inv(s) && Rescued(s, w) && Stopped(s)
    ensures Leaving(s)
  {
    if !s.lock.Free? { var e := Progress.OwnerMoves(s); }
    forall a | 0 <= a < |s.adders| ensures s.adders[a].Idle? {
      if !s.adders[a].Idle? { var e := Progress.BusyAdderMoves(s, a); }
    }
  }

  /** The broadcast wakes every sleeper and leaves everybody else where they stand. */
  lemma BroadcastDoes(s: State)
    requires Inv(s) && s.destroyer.Broadcasting?
    ensures var t := Do(s, Broadcast);
            && Inv(t) && t.shutdown && t.destroyer == Joining(0) && NobodyWaits(t)
            && t.adders == s.adders && |t.workers| == |s.workers|
            && forall w :: 0 <= w < |s.workers| ==> (Doomed(t, w) <==> Doomed(s, w))
  {
    InvStep(s, Broadcast);
  }

  /**
   After a broadcast that finds no worker between its test and its wait, or finds an adder
   that has yet to take the lock, every run that stops has all workers exited and joined,
   even with new submissions and spurious wakeups in between.
   */
  lemma LeaversJoin(s: State, es: seq<Event>)
    requires Inv(s) && s.destroyer.Broadcasting? && (NoneDoomed(s) || Coming(s))
    requires Legal(Do(s, Broadcast), es) && Stopped(Run(Do(s, Broadcast), es))
    ensures AllJoined(Run(Do(s, Broadcast), es))
  {
    BroadcastDoes(s);
    var t := Do(s, Broadcast);
    if NoneDoomed(s) {
      LeavingRun(t, es);
    } else {
      var w :| 0 <= w < |s.workers| && Doomed(s, w);
      var a :| 0 <= a < |s.adders| && s.adders[a].WantLock?;
      assert t.adders[a].WantLock?;
      assert Rescued(t, w);
      RescuedRun(t, w, es);
      StoppedRescuedLeave(Run(t, es), w);
    }
    StoppedLeaversHaveJoined(Run(t, es));
  }

  // ----- Does destroy return? -----

  /** Every way of running the pool to a stop ends with all workers gone and joined. */
  ghost predicate AlwaysJoins(s: State) {
    forall es :: Legal(s, es) && (forall i :: 0 <= i < |es| ==> Closing(es[i])) && Stopped(Run(s, es)) ==>
      AllJoined(Run(s, es))
  }

  /** A run to a stop in which somebody is not joined. */
  ghost predicate Strands(s: State, es: seq<Event>) {
    && Legal(s, es) && (forall i :: 0 <= i < |es| ==> Closing(es[i]))
    && Stopped(Run(s, es)) && !AllJoined(Run(s, es))
  }

  lemma StrandsAfter(s: State, e: Event, es: seq<Event>)
    requires Enabled(s, e) && Closing(e) && Strands(Do(s, e), es)
    ensures Strands(s, [e] + es)
  {
    assert ([e] + es)[1..] == es;
  }

  /** With no adder to come, all signals owed are sent while nobody sleeps, and then w does. */
  lemma Strand(s: State, w: nat) returns (es: seq<Event>)
    requires Inv(s) && s.destroyer.Joining? && w < |s.workers| && Doomed(s, w)
    requires NobodyWaits(s) && !Coming(s)
    ensures Strands(s, es)
    decreases Progress.Measure(s)
  {
    if AddersIdle(s) {
      es := RunToStop(s);
      LeftBehindForever(s, w, es);
    } else {
      var a :| 0 <= a < |s.adders| && !s.adders[a].Idle?;
      assert s.lock == ByWorker(w) && s.adders[a].Signal?;
      Progress.InternalDecreases(s, NotifyNobody(a));
      var rest := Strand(Do(s, NotifyNobody(a)), w);
      StrandsAfter(s, NotifyNobody(a), rest);
      es := [NotifyNobody(a)] + rest;
    }
  }

  /**
   From the broadcast on: every interleaving joins all workers exactly when no worker stands
   between its test and its wait, or some adder that has yet to take the lock will signal
   once that worker sleeps.
   */
  lemma BroadcastJoinsIff(s: State)
    requires Inv(s) && s.destroyer.Broadcasting?
    ensures AlwaysJoins(Do(s, Broadcast)) <==> NoneDoomed(s) || Coming(s)
  {
    var t := Do(s, Broadcast);
    BroadcastDoes(s);
    if NoneDoomed(s) || Coming(s) {
      forall es | Legal(t, es) && Stopped(Run(t, es)) ensures AllJoined(Run(t, es)) {
        LeaversJoin(s, es);
      }
    } else {
      var w :| 0 <= w < |s.workers| && Doomed(s, w);
      var es := Strand(t, w);
    }
  }

  /** Before the call is over nothing moves, afterwards nobody sleeps. */
  predicate AtRest(s: State) {
    && s.list == [] && AddersIdle(s)
    && (Leaving(s) || (!s.destroyer.Joining? && Progress.Drained(s)))
  }

  lemma AtRestStep(s: State, e: Event)
    requires Inv(s) && AtRest(s) && Enabled(s, e) && Closing(e)
    ensures AtRest(Do(s, e))
  {
    if Leaving(s) {
      LeavingStep(s, e);
    }
  }

  lemma {:induction false} AtRestRun(s: State, es: seq<Event>)
    requires Inv(s) && AtRest(s) && Legal(s, es)
    requires forall i :: 0 <= i < |es| ==> Closing(es[i])
    ensures Inv(Run(s, es)) && AtRest(Run(s, es))
    decreases |es|
  {
    if es != [] {
      AtRestStep(s, es[0]);
      InvStep(s, es[0]);
      AtRestRun(Do(s, es[0]), es[1..]);
    }
  }

  /** Destroying a pool at rest joins every worker and leaves nothing in the queue. */
  lemma DestroyAtRest(s: State, es: seq<Event>)
    requires Inv(s) && s.destroyer.NotCalled? && Progress.Drained(s)
    requires Legal(s, es) && Stopped(Run(s, es))
    requires forall i :: 0 <= i < |es| ==> Closing(es[i])
    ensures AllJoined(Run(s, es)) && Run(s, es).list == []
  {
    AtRestRun(s, es);
    StoppedAtRest(Run(s, es));
  }

  lemma StoppedAtRest(s: State)
    requires Inv(s) && AtRest(s) && Stopped(s)
    ensures AllJoined(s) && s.list == []
  {
    hide Inv, Progress.Drained;
    assert !Enabled(s, Store) && !Enabled(s, Broadcast);
    StoppedLeaversHaveJoined(s);
  }

  /** While no worker is about to sleep with every adder gone, a step leads to no rest. */
  lemma StaysAwake(s: State, e: Event)
    requires Inv(s) && s.workers != [] && Enabled(s, e) && Progress.Internal(e)
    requires AddersIdle(s) ==> NoneDoomed(s)
    ensures !Progress.Drained(Do(s, e))
  {
    var t := Do(s, e);
    match e
    case WorkerStep(w) => assert t.workers[w].Waiting? ==> Doomed(s, w) && t.adders == s.adders;
    case AdderStep(a) => assert !t.adders[a].Idle?;
    case Notify(a, w) => assert t.workers[w].Woken?;
    case NotifyNobody(a) => assert !t.workers[0].Waiting?;
  }

  /** Store and broadcast fall between the test and the wait of a worker. */
  lemma StrikeNow(s: State) returns (es: seq<Event>)
    requires Inv(s) && s.destroyer.NotCalled? && AddersIdle(s) && !NoneDoomed(s)
    ensures Strands(s, es)
  {
    var w :| 0 <= w < |s.workers| && Doomed(s, w);
    var t := Do(s, Store);
    InvStep(s, Store);
    BroadcastDoes(t);
    assert Doomed(t, w) && !Coming(t);
    hide Inv, Strands;
    es := Strand(Do(t, Broadcast), w);
    StrandsAfter(t, Broadcast, es);
    StrandsAfter(s, Store, [Broadcast] + es);
    es := [Store] + ([Broadcast] + es);
  }

  /** A pool that is not at rest comes to have a worker about to sleep, and destroy strikes then. */
  lemma StrandFromCall(s: State) returns (es: seq<Event>)
    requires Inv(s) && s.destroyer.NotCalled? && s.workers != [] && !Progress.Drained(s)
    ensures Strands(s, es)
    decreases Progress.Measure(s)
  {
    if AddersIdle(s) && !NoneDoomed(s) {
      es := StrikeNow(s);
    } else {
      Progress.QuiescentIffDrained(s);
      var e :| Progress.Internal(e) && Enabled(s, e);
      StaysAwake(s, e);
      Progress.InternalDecreases(s, e);
      Progress.DrainingKeepsOpen(s, [e]);
      var rest := StrandFromCall(Do(s, e));
      StrandsAfter(s, e, rest);
      es := [e] + rest;
    }
  }

  /**
   From the call on: whatever the workers and adders are doing, destroy joins all workers in
   every interleaving exactly when it is called on a pool at rest, where nothing is queued,
   run or being added and every worker sleeps.
   */
  lemma DestroyJoinsIffAtRest(s: State)
    requires Inv(s) && s.destroyer.NotCalled?
    ensures AlwaysJoins(s) <==> s.workers == [] || Progress.Drained(s)
  {
    if s.workers == [] || Progress.Drained(s) {
      forall es | Legal(s, es) && (forall i :: 0 <= i < |es| ==> Closing(es[i])) && Stopped(Run(s, es))
        ensures AllJoined(Run(s, es))
      {
        if s.workers == [] {
          NoWorkersNoJoins(s, es);
        } else {
          DestroyAtRest(s, es);
        }
      }
    } else {
      var es := StrandFromCall(s);
    }
  }

  lemma NoWorkersNoJoins(s: State, es: seq<Event>)
    requires Inv(s) && s.workers == [] && Legal(s, es) && Stopped(Run(s, es))
    ensures AllJoined(Run(s, es))
  {
    hide Inv;
    InvRun(s, es);
    SameThreads(s, es);
    StoppedWithoutWorkers(Run(s, es));
  }

  lemma StoppedWithoutWorkers(s: State)
    requires Inv(s) && s.workers == [] && Stopped(s)
    ensures AllJoined(s)
  {
    hide LockInv, Conserved, NoLostWakeup;
    assert !Enabled(s, Store) && !Enabled(s, Broadcast);
  }

  /** One spurious wakeup before the call is enough to undo the guarantee. */
  lemma SpuriousWakeupUndoesRest(s: State, w: nat)
    requires Inv(s) && s.destroyer.NotCalled? && Progress.Drained(s) && w < |s.workers|
    ensures Enabled(s, Spurious(w)) && !AlwaysJoins(Do(s, Spurious(w)))
  {
    InvStep(s, Spurious(w));
    DestroyJoinsIffAtRest(Do(s, Spurious(w)));
  }

  /** The same state with worker 0 in its critical section. */
  function Inside(s: State, pc: WorkerPc): State
    requires s.workers != []
  {
    s.(workers := s.workers[0 := pc], lock := ByWorker(0))
  }

  lemma StepsToTheWait(s: State)
    requires s.workers != [] && s.workers[0].AtLock? && s.lock.Free? && !s.shutdown && s.workernum == 0
    requires s.destroyer.NotCalled?
    ensures Enabled(s, WorkerStep(0)) && Do(s, WorkerStep(0)) == Inside(s, TestShutdown)
    ensures var t := Inside(s, TestShutdown);
            Enabled(t, WorkerStep(0)) && Do(t, WorkerStep(0)) == Inside(s, TestCount)
    ensures var t := Inside(s, TestCount);
            Enabled(t, WorkerStep(0)) && Do(t, WorkerStep(0)) == Inside(s, BeforeWait)
    ensures var t := Inside(s, BeforeWait);
            Enabled(t, Store) && Do(t, Store) == t.(shutdown := true, destroyer := Broadcasting)
  {
  }

  /** Worker 0 finds the flag and the counter zero, then the flag is stored. */
  const RACE: seq<Event> := [WorkerStep(0), WorkerStep(0), WorkerStep(0), Store]

  lemma RaceRuns(s: State)
    requires s.workers != [] && s.workers[0].AtLock? && s.lock.Free? && !s.shutdown && s.workernum == 0
    requires s.destroyer.NotCalled?
    ensures Legal(s, RACE)
    ensures Run(s, RACE) == Inside(s, BeforeWait).(shutdown := true, destroyer := Broadcasting)
  {
    StepsToTheWait(s);
    hide Do, Enabled, Inside;
    var race := Prepend(Inside(s, BeforeWait), Store, []);
    race := Prepend(Inside(s, TestCount), WorkerStep(0), race);
    race := Prepend(Inside(s, TestShutdown), WorkerStep(0), race);
    race := Prepend(s, WorkerStep(0), race);
    assert race == RACE;
  }

  /**
   The bad case is reachable with any number of workers: worker 0 finds the flag and the
   counter zero, the flag is stored and broadcast, and only then does the worker wait.
   */
  lemma MissedBroadcast(workers: nat, adders: nat)
    requires workers > 0
    ensures var s := Init(workers, adders);
            && Legal(s, RACE)
            && Inv(Run(s, RACE)) && AddersIdle(Run(s, RACE)) && Run(s, RACE).destroyer.Broadcasting?
            && !NoneDoomed(Run(s, RACE))
            && !AlwaysJoins(Do(Run(s, RACE), Broadcast))
  {
    hide Legal, Run, Inv, Do, AlwaysJoins;
    var s := Init(workers, adders);
    RaceRuns(s);
    InvInit(workers, adders);
    InvRun(s, RACE);
    assert Doomed(Run(s, RACE), 0);
    BroadcastJoinsIff(Run(s, RACE));
  }
}
