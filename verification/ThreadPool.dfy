/**
 The worker pool as a state machine. Every access to shared memory is one step, so a run
 of the machine is one interleaving of the workers, of any number of threads that add
 work, and of the thread that destroys the pool. Memory is sequentially consistent.

 `shutdown` is stored outside the lock, the signal is sent after the lock is released, and
 a waiting worker may be woken spuriously at any time.
 */
module ThreadPool {
  import opened Seqs

  /** Identifies one queued piece of work. */
  type Job = nat

  /** Where a worker stands in the routine; the comment gives the line it is about to run. */
  datatype WorkerPc =
    | AtLock            // 76: lock
    | TestShutdown      // 77: first operand of the loop test
    | TestCount         // 77: second operand, after reading shutdown == 0
    | BeforeWait        // 78: both operands read as zero, about to wait
    | Waiting           // 78: in the condition's waiting set, lock released
    | Woken             // 78: taken out of the waiting set, about to reacquire the lock
    | Check             // 81: second read of shutdown
    | Count             // 86: decrement workernum
    | Take              // 87-88: unlink the head
    | Unlock(job: Job)  // 89
    | Running(job: Job) // 90-92
    | ExitUnlock        // 82
    | Exited            // 83

  datatype AdderPc =
    | Idle
    | WantLock(job: Job) // 114
    | Link(job: Job)     // 115-126
    | Bump               // 127
    | Release            // 128
    | Signal             // 129

  datatype DestroyerPc =
    | NotCalled
    | Broadcasting       // 144, after the store on line 143
    | Joining(next: nat) // 146-150

  datatype Owner = Free | ByWorker(w: nat) | ByAdder(a: nat)

  /** The last three fields are history: what was linked, what was unlinked, what returned. */
  datatype State = State(
    workers: seq<WorkerPc>,
    adders: seq<AdderPc>,
    destroyer: DestroyerPc,
    shutdown: bool,
    workernum: int,
    list: seq<Job>,
    lock: Owner,
    appended: seq<Job>,
    taken: seq<Job>,
    finished: seq<Job>
  )

  datatype Event =
    | WorkerStep(w: nat)
    | Spurious(w: nat)
    | Submit(a: nat, job: Job)
    | AdderStep(a: nat)
    | Notify(a: nat, w: nat)
    | NotifyNobody(a: nat)
    | Store
    | Broadcast
    | Join

  function Init(workers: nat, adders: nat): State {
    State(seq(workers, _ => AtLock), seq(adders, _ => Idle), NotCalled, false, 0, [], Free, [], [], [])
  }

  // ----- Steps -----

  predicate NobodyWaits(s: State) {
    forall w :: 0 <= w < |s.workers| ==> !s.workers[w].Waiting?
  }

  predicate Enabled(s: State, e: Event) {
    match e
    case WorkerStep(w) =>
      && w < |s.workers|
      && (match s.workers[w]
          case AtLock => s.lock.Free?
          case Woken => s.lock.Free?
          case Waiting => false
          case Exited => false
          case Take => s.list != []
          case _ => true)
    case Spurious(w) => w < |s.workers| && s.workers[w].Waiting?
    case Submit(a, _) => a < |s.adders| && s.adders[a].Idle?
    case AdderStep(a) =>
      && a < |s.adders|
      && (match s.adders[a]
          case Idle => false
          case WantLock(_) => s.lock.Free?
          case Signal => false
          case _ => true)
    case Notify(a, w) => a < |s.adders| && s.adders[a].Signal? && w < |s.workers| && s.workers[w].Waiting?
    case NotifyNobody(a) => a < |s.adders| && s.adders[a].Signal? && NobodyWaits(s)
    case Store => s.destroyer.NotCalled?
    case Broadcast => s.destroyer.Broadcasting?
    case Join =>
      s.destroyer.Joining? && s.destroyer.next < |s.workers| && s.workers[s.destroyer.next].Exited?
  }

  function Goto(s: State, w: nat, pc: WorkerPc): State
    requires w < |s.workers|
  {
    s.(workers := s.workers[w := pc])
  }

  function StepWorker(s: State, w: nat): State
    requires Enabled(s, WorkerStep(w))
  {
    match s.workers[w]
    case AtLock => Goto(s, w, TestShutdown).(lock := ByWorker(w))
    case TestShutdown => Goto(s, w, if s.shutdown then Check else TestCount)
    case TestCount => Goto(s, w, if s.workernum == 0 then BeforeWait else Check)
    case BeforeWait => Goto(s, w, Waiting).(lock := Free)
    case Woken => Goto(s, w, TestShutdown).(lock := ByWorker(w))
    case Check => Goto(s, w, if s.shutdown then ExitUnlock else Count)
    case Count => Goto(s, w, Take).(workernum := s.workernum - 1)
    case Take => Goto(s, w, Unlock(s.list[0])).(list := s.list[1..], taken := s.taken + [s.list[0]])
    case Unlock(job) => Goto(s, w, Running(job)).(lock := Free)
    case Running(job) => Goto(s, w, AtLock).(finished := s.finished + [job])
    case ExitUnlock => Goto(s, w, Exited).(lock := Free)
  }

  function AdderGoto(s: State, a: nat, pc: AdderPc): State
    requires a < |s.adders|
  {
    s.(adders := s.adders[a := pc])
  }

  function StepAdder(s: State, a: nat): State
    requires Enabled(s, AdderStep(a))
  {
    match s.adders[a]
    case WantLock(job) => AdderGoto(s, a, Link(job)).(lock := ByAdder(a))
    case Link(job) => AdderGoto(s, a, Bump).(list := s.list + [job], appended := s.appended + [job])
    case Bump => AdderGoto(s, a, Release).(workernum := s.workernum + 1)
    case Release => AdderGoto(s, a, Signal).(lock := Free)
  }

  function Wake(pc: WorkerPc): WorkerPc {
    if pc.Waiting? then Woken else pc
  }

  function WakeAll(ws: seq<WorkerPc>): seq<WorkerPc> {
    seq(|ws|, i requires 0 <= i < |ws| => Wake(ws[i]))
  }

  function Do(s: State, e: Event): State
    requires Enabled(s, e)
  {
    match e
    case WorkerStep(w) => StepWorker(s, w)
    case Spurious(w) => Goto(s, w, Woken)
    case Submit(a, job) => AdderGoto(s, a, WantLock(job))
    case AdderStep(a) => StepAdder(s, a)
    case Notify(a, w) => Goto(AdderGoto(s, a, Idle), w, Woken)
    case NotifyNobody(a) => AdderGoto(s, a, Idle)
    case Store => s.(shutdown := true, destroyer := Broadcasting)
    case Broadcast => s.(workers := WakeAll(s.workers), destroyer := Joining(0))
    case Join => s.(destroyer := Joining(s.destroyer.next + 1))
  }

  // ----- Runs -----

  predicate Legal(s: State, es: seq<Event>)
    decreases |es|
  {
    es == [] || (Enabled(s, es[0]) && Legal(Do(s, es[0]), es[1..]))
  }

  function Run(s: State, es: seq<Event>): State
    requires Legal(s, es)
    decreases |es|
  {
    if es == [] then s else Run(Do(s, es[0]), es[1..])
  }

  lemma Prepend(s: State, e: Event, rest: seq<Event>) returns (es: seq<Event>)
    requires Enabled(s, e) && Legal(Do(s, e), rest)
    ensures es == [e] + rest && Legal(s, es) && Run(s, es) == Run(Do(s, e), rest)
  {
    es := [e] + rest;
    assert es[1..] == rest;
  }

  lemma {:induction false} SameThreads(s: State, es: seq<Event>)
    requires Legal(s, es)
    ensures |Run(s, es).workers| == |s.workers| && |Run(s, es).adders| == |s.adders|
    decreases |es|
  {
    if es != [] {
      SameThreads(Do(s, es[0]), es[1..]);
    }
  }

  lemma {:induction false} RunConcat(s: State, a: seq<Event>, b: seq<Event>)
    requires Legal(s, a) && Legal(Run(s, a), b)
    ensures Legal(s, a + b) && Run(s, a + b) == Run(Run(s, a), b)
    decreases |a|
  {
    if a == [] {
      assert a + b == b;
    } else {
      RunConcat(Do(s, a[0]), a[1..], b);
      assert (a + b)[1..] == a[1..] + b;
    }
  }

  // ----- The invariant -----

  predicate WorkerInside(pc: WorkerPc) {
    pc in {TestShutdown, TestCount, BeforeWait, Check, Count, Take, ExitUnlock} || pc.Unlock?
  }

  predicate AdderInside(pc: AdderPc) {
    pc.Link? || pc.Bump? || pc.Release?
  }

  /** The mutex: a thread is in its critical section exactly when it owns the lock. */
  predicate LockInv(s: State) {
    && (forall w :: 0 <= w < |s.workers| ==> (WorkerInside(s.workers[w]) <==> s.lock == ByWorker(w)))
    && (forall a :: 0 <= a < |s.adders| ==> (AdderInside(s.adders[a]) <==> s.lock == ByAdder(a)))
    && (s.lock.ByWorker? ==> s.lock.w < |s.workers|)
    && (s.lock.ByAdder? ==> s.lock.a < |s.adders|)
  }

  /** 1 while a critical section has changed one of workernum and list and not yet the other. */
  function Unsettled(s: State): int
    requires LockInv(s)
  {
    match s.lock
    case Free => 0
    case ByWorker(w) => if s.workers[w].Take? then 1 else 0
    case ByAdder(a) => if s.adders[a].Bump? then 1 else 0
  }

  /** What each place between the two reads of shutdown knows about the counter. */
  predicate PlaceInv(s: State, pc: WorkerPc) {
    match pc
    case BeforeWait => s.workernum == 0
    case Check => s.shutdown || s.workernum > 0
    case Count => s.workernum > 0
    case ExitUnlock => s.shutdown
    case Exited => s.shutdown
    case _ => true
  }

  /** 1 for a worker that has the given job in its hands. */
  function Holds(job: Job): WorkerPc -> nat {
    (pc: WorkerPc) => if (pc.Unlock? || pc.Running?) && pc.job == job then 1 else 0
  }

  /** How often a job is in the hands of workers. */
  function Held(ws: seq<WorkerPc>, job: Job): nat {
    SumBy(ws, Holds(job))
  }

  /** Every unlinked job is in a worker's hands or finished, as often as it was unlinked. */
  ghost predicate Conserved(s: State) {
    forall job: Job :: multiset(s.taken)[job] == Held(s.workers, job) + multiset(s.finished)[job]
  }

  /** A worker that will look at the queue again before it blocks or runs a job. */
  function Looking(pc: WorkerPc): nat {
    if pc in {AtLock, TestShutdown, TestCount, BeforeWait, Woken, Check, Count, Take} then 1 else 0
  }

  /** An adder that has linked its job and still owes a signal. */
  function Owing(pc: AdderPc): nat {
    if pc.Bump? || pc.Release? || pc.Signal? then 1 else 0
  }

  predicate NoLostWakeup(s: State) {
    !NobodyWaits(s) && !s.shutdown ==> |s.list| <= SumBy(s.adders, Owing) + SumBy(s.workers, Looking)
  }

  predicate DestroyerInv(s: State) {
    && (s.destroyer.NotCalled? <==> !s.shutdown)
    && (s.destroyer.Joining? ==> s.destroyer.next <= |s.workers|)
    && (s.destroyer.Joining? ==> forall w :: 0 <= w < s.destroyer.next ==> s.workers[w].Exited?)
  }

  ghost predicate Inv(s: State) {
    && LockInv(s)
    && s.workernum + Unsettled(s) == |s.list|
    && s.workernum >= 0
    && (forall w :: 0 <= w < |s.workers| ==> PlaceInv(s, s.workers[w]))
    && s.appended == s.taken + s.list
    && Conserved(s)
    && NoLostWakeup(s)
    && DestroyerInv(s)
  }

  lemma {:induction false} HeldWakeAll(ws: seq<WorkerPc>, job: Job)
    ensures Held(WakeAll(ws), job) == Held(ws, job)
  {
    if ws != [] {
      assert WakeAll(ws)[1..] == WakeAll(ws[1..]);
      HeldWakeAll(ws[1..], job);
    }
  }

  lemma {:induction false} HeldInit(n: nat, job: Job)
    ensures Held(seq(n, _ => AtLock), job) == 0
  {
    if n > 0 {
      var ws: seq<WorkerPc> := seq(n, _ => AtLock);
      var rest: seq<WorkerPc> := seq(n - 1, _ => AtLock);
      assert ws[1..] == rest;
      HeldInit(n - 1, job);
    }
  }

  lemma InvInit(workers: nat, adders: nat)
    ensures Inv(Init(workers, adders))
  {
    forall job: Job ensures Held(Init(workers, adders).workers, job) == 0 {
      HeldInit(workers, job);
    }
  }

  lemma LockWorkerStep(s: State, w: nat)
    requires LockInv(s) && Enabled(s, WorkerStep(w))
    ensures LockInv(StepWorker(s, w))
  {
  }

  lemma LockAdderStep(s: State, a: nat)
    requires LockInv(s) && Enabled(s, AdderStep(a))
    ensures LockInv(StepAdder(s, a))
  {
  }

  /** Only the owner of the lock is inside. */
  lemma LockStep(s: State, e: Event)
    requires LockInv(s) && Enabled(s, e)
    ensures LockInv(Do(s, e))
  {
    match e
    case WorkerStep(w) => LockWorkerStep(s, w);
    case AdderStep(a) => LockAdderStep(s, a);
    case _ =>
  }

  lemma {:induction false} CounterStep(s: State, e: Event)
    requires LockInv(s) && Enabled(s, e)
    requires s.workernum + Unsettled(s) == |s.list|
    ensures LockInv(Do(s, e)) && Do(s, e).workernum + Unsettled(Do(s, e)) == |Do(s, e).list|
  {
    LockStep(s, e);
  }

  lemma PlaceStep(s: State, e: Event)
    requires LockInv(s) && Enabled(s, e)
    requires forall w :: 0 <= w < |s.workers| ==> PlaceInv(s, s.workers[w])
    requires s.workernum >= 0
    ensures var t := Do(s, e);
            t.workernum >= 0 && forall w :: 0 <= w < |t.workers| ==> PlaceInv(t, t.workers[w])
  {
  }

  lemma FifoStep(s: State, e: Event)
    requires s.appended == s.taken + s.list && Enabled(s, e)
    ensures Do(s, e).appended == Do(s, e).taken + Do(s, e).list
  {
    if e.WorkerStep? && s.workers[e.w].Take? {
      assert s.list == [s.list[0]] + s.list[1..];
    }
  }

  lemma OneMore(jobs: seq<Job>, last: Job, job: Job)
    ensures multiset(jobs + [last])[job] == multiset(jobs)[job] + (if last == job then 1 else 0)
  {
  }

  lemma ConservedWorkerStep(s: State, w: nat, job: Job)
    requires Enabled(s, WorkerStep(w))
    requires multiset(s.taken)[job] == Held(s.workers, job) + multiset(s.finished)[job]
    ensures var t := StepWorker(s, w);
            multiset(t.taken)[job] == Held(t.workers, job) + multiset(t.finished)[job]
  {
    hide SumBy, Holds, StepWorker;
    var t := StepWorker(s, w);
    if s.workers[w].Take? {
      TakesHead(s, w, job);
      OneMore(s.taken, s.list[0], job);
    } else if s.workers[w].Running? {
      Finishes(s, w, job);
      OneMore(s.finished, s.workers[w].job, job);
    } else {
      KeepsHands(s, w, job);
    }
    SumUpdate(s.workers, w, t.workers[w], Holds(job));
  }

  lemma TakesHead(s: State, w: nat, job: Job)
    requires Enabled(s, WorkerStep(w)) && s.workers[w].Take?
    ensures var t := StepWorker(s, w);
            && t.taken == s.taken + [s.list[0]] && t.finished == s.finished
            && |t.workers| == |s.workers| && t.workers == s.workers[w := t.workers[w]]
            && Holds(job)(s.workers[w]) == 0
            && Holds(job)(t.workers[w]) == if s.list[0] == job then 1 else 0
  {
  }

  lemma Finishes(s: State, w: nat, job: Job)
    requires Enabled(s, WorkerStep(w)) && s.workers[w].Running?
    ensures var t := StepWorker(s, w);
            && t.taken == s.taken && t.finished == s.finished + [s.workers[w].job]
            && |t.workers| == |s.workers| && t.workers == s.workers[w := t.workers[w]]
            && Holds(job)(s.workers[w]) == (if s.workers[w].job == job then 1 else 0)
            && Holds(job)(t.workers[w]) == 0
  {
  }

  /** Only unlinking and finishing change what a worker has in its hands. */
  lemma KeepsHands(s: State, w: nat, job: Job)
    requires Enabled(s, WorkerStep(w)) && !s.workers[w].Take? && !s.workers[w].Running?
    ensures var t := StepWorker(s, w);
            && t.taken == s.taken && t.finished == s.finished
            && |t.workers| == |s.workers| && t.workers == s.workers[w := t.workers[w]]
            && Holds(job)(t.workers[w]) == Holds(job)(s.workers[w])
  {
  }

  lemma ConservedStep(s: State, e: Event)
    requires Conserved(s) && Enabled(s, e)
    ensures Conserved(Do(s, e))
  {
    var t := Do(s, e);
    forall job: Job
      ensures multiset(t.taken)[job] == Held(t.workers, job) + multiset(t.finished)[job]
    {
      match e
      case WorkerStep(w) => ConservedWorkerStep(s, w, job);
      case Spurious(w) => SumUpdate(s.workers, w, Woken, Holds(job));
      case Notify(a, w) => SumUpdate(s.workers, w, Woken, Holds(job));
      case Broadcast => HeldWakeAll(s.workers, job);
      case _ =>
    }
  }

  lemma WakeupWorkerStep(s: State, w: nat)
    requires Inv(s) && Enabled(s, WorkerStep(w))
    ensures NoLostWakeup(StepWorker(s, w))
  {
    var t := StepWorker(s, w);
    SumUpdate(s.workers, w, t.workers[w], Looking);
    if !s.workers[w].BeforeWait? {
      assert !NobodyWaits(t) ==> !NobodyWaits(s) by {
        forall v | 0 <= v < |t.workers| && t.workers[v].Waiting? ensures s.workers[v].Waiting? {}
      }
    }
  }

  lemma WakeupStep(s: State, e: Event)
    requires Inv(s) && Enabled(s, e)
    ensures NoLostWakeup(Do(s, e))
  {
    var t := Do(s, e);
    match e
    case WorkerStep(w) => WakeupWorkerStep(s, w);
    case AdderStep(a) => SumUpdate(s.adders, a, t.adders[a], Owing);
    case Spurious(w) => SumUpdate(s.workers, w, Woken, Looking);
    case Submit(a, job) => SumUpdate(s.adders, a, WantLock(job), Owing);
    case Notify(a, w) =>
      SumUpdate(s.workers, w, Woken, Looking);
      SumUpdate(s.adders, a, Idle, Owing);
    case NotifyNobody(a) => SumUpdate(s.adders, a, Idle, Owing);
    case _ =>
  }

  lemma DestroyerStep(s: State, e: Event)
    requires DestroyerInv(s) && Enabled(s, e)
    ensures DestroyerInv(Do(s, e))
  {
  }

  lemma InvStep(s: State, e: Event)
    requires Inv(s) && Enabled(s, e)
    ensures Inv(Do(s, e))
  {
    CounterStep(s, e);
    PlaceStep(s, e);
    FifoStep(s, e);
    ConservedStep(s, e);
    WakeupStep(s, e);
    DestroyerStep(s, e);
  }

  /** Every state of every run satisfies the invariant. */
  lemma {:induction false} InvRun(s: State, es: seq<Event>)
    requires Inv(s) && Legal(s, es)
    ensures Inv(Run(s, es))
    decreases |es|
  {
    if es != [] {
      InvStep(s, es[0]);
      InvRun(Do(s, es[0]), es[1..]);
    }
  }
}
