/** Submitted work keeps some thread able to move, and draining the queue terminates. */
module ThreadPoolProgress {
  import opened Seqs
  import opened ThreadPool

  /** A step that a worker or an adder takes of its own accord, callbacks returning included. */
  predicate Internal(e: Event) {
    e.WorkerStep? || e.AdderStep? || e.Notify? || e.NotifyNobody?
  }

  ghost predicate Quiescent(s: State) {
    forall e :: Internal(e) ==> !Enabled(s, e)
  }

  /** Nothing queued, nothing running, nothing being added: every worker sleeps. */
  predicate Drained(s: State) {
    && s.list == []
    && (forall a :: 0 <= a < |s.adders| ==> s.adders[a].Idle?)
    && (forall w :: 0 <= w < |s.workers| ==> s.workers[w].Waiting?)
  }

  // ----- Somebody can always move -----

  lemma OwnerMoves(s: State) returns (e: Event)
    requires Inv(s) && !s.lock.Free?
    ensures Internal(e) && Enabled(s, e)
  {
    match s.lock
    case ByWorker(w) => e := WorkerStep(w);
    case ByAdder(a) => e := AdderStep(a);
  }

  lemma BusyAdderMoves(s: State, a: nat) returns (e: Event)
    requires Inv(s) && s.lock.Free? && a < |s.adders| && !s.adders[a].Idle?
    ensures Internal(e) && Enabled(s, e)
  {
    if s.adders[a].Signal? {
      if w :| 0 <= w < |s.workers| && s.workers[w].Waiting? {
        e := Notify(a, w);
      } else {
        e := NotifyNobody(a);
      }
    } else {
      e := AdderStep(a);
    }
  }

  /**
   Before shutdown, with at least one worker, a queued job never leaves the pool stuck: some
   worker, adder or callback can take a step, without the help of a spurious wakeup.
   */
  lemma QueuedWorkMoves(s: State) returns (e: Event)
    requires Inv(s) && !s.shutdown && s.workers != [] && s.list != []
    ensures Internal(e) && Enabled(s, e)
  {
    if !s.lock.Free? {
      e := OwnerMoves(s);
    } else if !s.workers[0].Waiting? {
      e := WorkerStep(0);
    } else if SumBy(s.adders, Owing) > 0 {
      var a := SumWitness(s.adders, Owing);
      e := BusyAdderMoves(s, a);
    } else {
      var w := SumWitness(s.workers, Looking);
      e := WorkerStep(w);
    }
  }

  /** Before shutdown the pool comes to rest exactly when it is drained. */
  lemma QuiescentIffDrained(s: State)
    requires Inv(s) && !s.shutdown && s.workers != []
    ensures Quiescent(s) <==> Drained(s)
  {
    if Quiescent(s) {
      if !s.lock.Free? { var e := OwnerMoves(s); }
      if s.list != [] { var e := QueuedWorkMoves(s); }
      forall a | 0 <= a < |s.adders| ensures s.adders[a].Idle? {
        if !s.adders[a].Idle? { var e := BusyAdderMoves(s, a); }
      }
      forall w | 0 <= w < |s.workers| ensures s.workers[w].Waiting? {
        assert !Enabled(s, WorkerStep(w));
      }
    }
  }

  // ----- Draining terminates -----

  function WorkerRank(pc: WorkerPc): nat {
    match pc
    case Waiting => 0
    case Exited => 0
    case BeforeWait => 1
    case ExitUnlock => 1
    case Count => 1
    case Check => 2
    case TestCount => 3
    case TestShutdown => 4
    case AtLock => 5
    case Woken => 5
    case Running(_) => 6
    case Unlock(_) => 7
    case Take => 8
  }

  function AdderRank(pc: AdderPc): nat {
    match pc
    case Idle => 0
    case Signal => 6
    case Release => 7
    case Bump => 16
    case Link(_) => 17
    case WantLock(_) => 18
  }

  /** Work left: eight steps for each counted job, plus what each thread has begun. */
  function Measure(s: State): nat
    requires s.workernum >= 0
  {
    8 * s.workernum + SumBy(s.workers, WorkerRank) + SumBy(s.adders, AdderRank)
  }

  lemma WorkerStepRank(s: State, w: nat)
    requires Inv(s) && Enabled(s, WorkerStep(w))
    ensures var t := StepWorker(s, w);
            && t.adders == s.adders && t.workers == s.workers[w := t.workers[w]] && t.workernum >= 0
            && 8 * t.workernum + WorkerRank(t.workers[w]) < 8 * s.workernum + WorkerRank(s.workers[w])
  {
    hide Conserved, NoLostWakeup, DestroyerInv, LockInv, SumBy;
    assert PlaceInv(s, s.workers[w]);
  }

  lemma WorkerStepDecreases(s: State, w: nat)
    requires s.workernum >= 0 && Inv(s) && Enabled(s, WorkerStep(w))
    ensures StepWorker(s, w).workernum >= 0 && Measure(StepWorker(s, w)) < Measure(s)
  {
    hide Inv, StepWorker, WorkerRank, AdderRank, SumBy;
    WorkerStepRank(s, w);
    SumUpdate(s.workers, w, StepWorker(s, w).workers[w], WorkerRank);
  }

  lemma AdderStepRank(s: State, a: nat)
    requires Enabled(s, AdderStep(a))
    ensures var t := StepAdder(s, a);
            && t.workers == s.workers && t.adders == s.adders[a := t.adders[a]] && t.workernum >= s.workernum
            && 8 * t.workernum + AdderRank(t.adders[a]) < 8 * s.workernum + AdderRank(s.adders[a])
  {
  }

  lemma AdderStepDecreases(s: State, a: nat)
    requires s.workernum >= 0 && Enabled(s, AdderStep(a))
    ensures StepAdder(s, a).workernum >= 0 && Measure(StepAdder(s, a)) < Measure(s)
  {
    hide StepAdder, WorkerRank, AdderRank, SumBy;
    AdderStepRank(s, a);
    SumUpdate(s.adders, a, StepAdder(s, a).adders[a], AdderRank);
  }

  lemma SignalDecreases(s: State, e: Event)
    requires s.workernum >= 0 && Enabled(s, e) && (e.Notify? || e.NotifyNobody?)
    ensures Do(s, e).workernum == s.workernum && Measure(Do(s, e)) < Measure(s)
  {
    hide SumBy;
    SumUpdate(s.adders, e.a, Idle, AdderRank);
    if e.Notify? {
      SumUpdate(s.workers, e.w, Woken, WorkerRank);
    }
  }

  lemma InternalDecreases(s: State, e: Event)
    requires Inv(s) && Enabled(s, e) && Internal(e)
    ensures Inv(Do(s, e)) && Measure(Do(s, e)) < Measure(s)
  {
    hide Measure, LockInv, Conserved, PlaceInv, NoLostWakeup, DestroyerInv, StepWorker, StepAdder;
    InvStep(s, e);
    match e
    case WorkerStep(w) => WorkerStepDecreases(s, w);
    case AdderStep(a) => AdderStepDecreases(s, a);
    case _ => SignalDecreases(s, e);
  }

  lemma SpuriousAddsFive(s: State, w: nat)
    requires Inv(s) && Enabled(s, Spurious(w))
    ensures Inv(Do(s, Spurious(w))) && Measure(Do(s, Spurious(w))) == Measure(s) + 5
  {
    InvStep(s, Spurious(w));
    SumUpdate(s.workers, w, Woken, WorkerRank);
  }

  /** Runs without new submissions and without a call to destroy. */
  predicate Draining(es: seq<Event>) {
    forall i :: 0 <= i < |es| ==> Internal(es[i]) || es[i].Spurious?
  }

  function SpuriousCount(es: seq<Event>): nat {
    SumBy(es, (e: Event) => if e.Spurious? then 1 else 0)
  }

  /** Such a run is no longer than the work left plus six steps for every spurious wakeup. */
  lemma {:induction false} DrainingIsBounded(s: State, es: seq<Event>)
    requires Inv(s) && Legal(s, es) && Draining(es)
    ensures |es| <= Measure(s) + 6 * SpuriousCount(es)
    decreases |es|
  {
    if es != [] {
      var t := Do(s, es[0]);
      if es[0].Spurious? {
        SpuriousAddsFive(s, es[0].w);
      } else {
        InternalDecreases(s, es[0]);
      }
      DrainingIsBounded(t, es[1..]);
    }
  }

  lemma {:induction false} DrainingKeepsOpen(s: State, es: seq<Event>)
    requires Legal(s, es) && Draining(es)
    ensures var t := Run(s, es);
            && t.shutdown == s.shutdown && t.destroyer == s.destroyer
            && |t.workers| == |s.workers| && |t.adders| == |s.adders|
    decreases |es|
  {
    if es != [] { DrainingKeepsOpen(Do(s, es[0]), es[1..]); }
  }

  lemma {:induction false} NothingHeld(ws: seq<WorkerPc>, job: Job)
    requires forall w :: 0 <= w < |ws| ==> ws[w].Waiting?
    ensures Held(ws, job) == 0
  {
    if ws != [] { NothingHeld(ws[1..], job); }
  }

  /**
   A draining run that cannot be continued has finished every linked job exactly as often as
   it was linked, and every adder has returned.
   */
  lemma {:induction false} DrainedMeansFinished(s: State, es: seq<Event>)
    requires Inv(s) && !s.shutdown && s.workers != []
    requires Legal(s, es) && Draining(es) && Quiescent(Run(s, es))
    ensures var t := Run(s, es); Drained(t) && multiset(t.finished) == multiset(t.appended)
  {
    var t := Run(s, es);
    InvRun(s, es);
    DrainingKeepsOpen(s, es);
    QuiescentIffDrained(t);
    forall job: Job ensures multiset(t.finished)[job] == multiset(t.appended)[job] {
      NothingHeld(t.workers, job);
    }
  }

  /** From every state the internal steps alone reach a state of rest. */
  lemma {:induction false} RunToRest(s: State) returns (es: seq<Event>)
    requires Inv(s)
    ensures Legal(s, es) && Quiescent(Run(s, es))
    ensures forall i :: 0 <= i < |es| ==> Internal(es[i])
    decreases Measure(s)
  {
    if Quiescent(s) {
      es := [];
    } else {
      var e :| Internal(e) && Enabled(s, e);
      InternalDecreases(s, e);
      var rest := RunToRest(Do(s, e));
      es := [e] + rest;
      assert es[1..] == rest;
    }
  }
}
