/** From submission to completion: no submitted job is lost, duplicated or overtaken. */
module ThreadPoolSubmission {
  import opened Seqs
  import opened ThreadPool
  import Progress = ThreadPoolProgress
  import Safety = ThreadPoolSafety

  function SubmittedBy(e: Event): seq<Job> {
    if e.Submit? then [e.job] else []
  }

  /** The jobs handed to add_work in a run, in order. */
  function SubmittedJobs(es: seq<Event>): seq<Job> {
    if es == [] then [] else SubmittedBy(es[0]) + SubmittedJobs(es[1..])
  }

  function PendingJob(pc: AdderPc): seq<Job> {
    if pc.WantLock? || pc.Link? then [pc.job] else []
  }

  /** 1 for an adder that was given the job and has not linked it yet. */
  function IsPending(job: Job): AdderPc -> nat {
    (pc: AdderPc) => if PendingJob(pc) == [job] then 1 else 0
  }

  function Pending(adders: seq<AdderPc>, job: Job): nat {
    SumBy(adders, IsPending(job))
  }

  // ----- Counting -----

  /** Only a submission gives an adder a job, and only linking takes it from the adder. */
  lemma AdderStepLinks(s: State, a: nat)
    requires Enabled(s, AdderStep(a))
    ensures var t := StepAdder(s, a);
            && t.adders == s.adders[a := t.adders[a]]
            && (s.adders[a].Link? ==>
                  PendingJob(t.adders[a]) == [] && t.appended == s.appended + PendingJob(s.adders[a]))
            && (!s.adders[a].Link? ==>
                  PendingJob(t.adders[a]) == PendingJob(s.adders[a]) && t.appended == s.appended)
  {
  }

  lemma PendingAdderStep(s: State, a: nat, job: Job)
    requires Enabled(s, AdderStep(a))
    ensures var t := StepAdder(s, a);
            multiset(t.appended)[job] + Pending(t.adders, job)
            == multiset(s.appended)[job] + Pending(s.adders, job)
  {
    hide SumBy, StepAdder;
    AdderStepLinks(s, a);
    SumUpdate(s.adders, a, StepAdder(s, a).adders[a], IsPending(job));
    if s.adders[a].Link? { OneMore(s.appended, s.adders[a].job, job); }
  }

  lemma PendingStep(s: State, e: Event, job: Job)
    requires Enabled(s, e)
    ensures var t := Do(s, e);
            multiset(t.appended)[job] + Pending(t.adders, job)
            == multiset(s.appended)[job] + Pending(s.adders, job) + if e.Submit? && e.job == job then 1 else 0
  {
    hide SumBy, StepAdder, StepWorker;
    match e
    case WorkerStep(w) => WorkerLinksNothing(s, w);
    case AdderStep(a) => PendingAdderStep(s, a, job);
    case Submit(a, j) => SumUpdate(s.adders, a, WantLock(j), IsPending(job));
    case Notify(a, _) => SumUpdate(s.adders, a, Idle, IsPending(job));
    case NotifyNobody(a) => SumUpdate(s.adders, a, Idle, IsPending(job));
    case _ =>
  }

  lemma WorkerLinksNothing(s: State, w: nat)
    requires Enabled(s, WorkerStep(w))
    ensures StepWorker(s, w).appended == s.appended && StepWorker(s, w).adders == s.adders
  {
  }

  lemma {:induction false} PendingRun(s: State, es: seq<Event>, job: Job)
    requires Legal(s, es)
    ensures multiset(Run(s, es).appended)[job] + Pending(Run(s, es).adders, job)
            == multiset(s.appended)[job] + Pending(s.adders, job) + multiset(SubmittedJobs(es))[job]
    decreases |es|
  {
    if es != [] {
      PendingStep(s, es[0], job);
      PendingRun(Do(s, es[0]), es[1..], job);
      hide Do, Pending;
      assert multiset(SubmittedJobs(es))[job]
             == (if es[0].Submit? && es[0].job == job then 1 else 0) + multiset(SubmittedJobs(es[1..]))[job];
    }
  }

  lemma {:induction false} NothingPending(adders: seq<AdderPc>, job: Job)
    requires forall a :: 0 <= a < |adders| ==> adders[a].Idle?
    ensures Pending(adders, job) == 0
  {
    if adders != [] { NothingPending(adders[1..], job); }
  }

  /** In every run each submitted job is linked or still in an adder's hands, as often as it was submitted. */
  lemma LinkedOrPending(workers: nat, adders: nat, es: seq<Event>, job: Job)
    requires Legal(Init(workers, adders), es)
    ensures var s := Run(Init(workers, adders), es);
            multiset(SubmittedJobs(es))[job] == multiset(s.appended)[job] + Pending(s.adders, job)
  {
    PendingRun(Init(workers, adders), es, job);
    NothingPending(Init(workers, adders).adders, job);
  }

  /** In every run each submitted job is pending, queued, held or finished, as often as it was submitted. */
  lemma Conservation(workers: nat, adders: nat, es: seq<Event>, job: Job)
    requires Legal(Init(workers, adders), es)
    ensures var s := Run(Init(workers, adders), es);
            multiset(SubmittedJobs(es))[job]
            == Pending(s.adders, job) + multiset(s.list)[job] + Held(s.workers, job) + multiset(s.finished)[job]
  {
    LinkedOrPending(workers, adders, es, job);
    Safety.Conservation(workers, adders, es, job);
  }

  /** A job submitted once is in exactly one of the four places, once. */
  lemma ExactlyOnePlace(workers: nat, adders: nat, es: seq<Event>, job: Job)
    requires Legal(Init(workers, adders), es)
    requires Safety.Distinct(SubmittedJobs(es)) && job in SubmittedJobs(es)
    ensures var s := Run(Init(workers, adders), es);
            Pending(s.adders, job) + multiset(s.list)[job] + Held(s.workers, job) + multiset(s.finished)[job] == 1
  {
    Conservation(workers, adders, es, job);
    Safety.DistinctOnce(SubmittedJobs(es), job);
  }

  // ----- Completion -----

  /** A run that comes to rest without a call to destroy has finished exactly what was submitted. */
  lemma RestMeansAllDone(workers: nat, adders: nat, es: seq<Event>)
    requires workers > 0 && Legal(Init(workers, adders), es)
    requires var s := Run(Init(workers, adders), es); !s.shutdown && Progress.Quiescent(s)
    ensures multiset(Run(Init(workers, adders), es).finished) == multiset(SubmittedJobs(es))
  {
    var s := Run(Init(workers, adders), es);
    Safety.Reached(workers, adders, es);
    SameThreads(Init(workers, adders), es);
    Progress.QuiescentIffDrained(s);
    forall job: Job ensures multiset(s.finished)[job] == multiset(SubmittedJobs(es))[job] {
      Conservation(workers, adders, es, job);
      NothingPending(s.adders, job);
      Progress.NothingHeld(s.workers, job);
    }
  }

  lemma {:induction false} InternalSubmitsNothing(es: seq<Event>)
    requires forall i :: 0 <= i < |es| ==> Progress.Internal(es[i])
    ensures SubmittedJobs(es) == []
  {
    if es != [] { InternalSubmitsNothing(es[1..]); }
  }

  /**
   An idle adder can always submit, whatever everybody else is doing, and the threads' own
   steps can then finish that job along with everything else there was to do.
   */
  lemma SubmittedGetsDone(workers: nat, adders: nat, es: seq<Event>, a: nat, job: Job)
    returns (more: seq<Event>)
    requires workers > 0 && Legal(Init(workers, adders), es)
    requires var s := Run(Init(workers, adders), es); !s.shutdown && a < |s.adders| && s.adders[a].Idle?
    ensures forall i :: 0 <= i < |more| ==> Progress.Internal(more[i])
    ensures Legal(Init(workers, adders), es + ([Submit(a, job)] + more))
    ensures multiset(Run(Init(workers, adders), es + ([Submit(a, job)] + more)).finished)
            == multiset(SubmittedJobs(es)) + multiset{job}
  {
    hide *;
    var s := Run(Init(workers, adders), es);
    Safety.Reached(workers, adders, es);
    CanSubmit(s, a, job);
    more := Progress.RunToRest(Do(s, Submit(a, job)));
    InternalDrains(more);
    Progress.DrainingKeepsOpen(Do(s, Submit(a, job)), more);
    var last := Prepend(s, Submit(a, job), more);
    RunConcat(Init(workers, adders), es, last);
    RestMeansAllDone(workers, adders, es + last);
    SubmittedConcat(es, last);
    FirstSubmitted(a, job, more);
  }

  lemma CanSubmit(s: State, a: nat, job: Job)
    requires Inv(s) && a < |s.adders| && s.adders[a].Idle?
    ensures Enabled(s, Submit(a, job)) && Inv(Do(s, Submit(a, job)))
    ensures Do(s, Submit(a, job)).shutdown == s.shutdown
  {
    InvStep(s, Submit(a, job));
  }

  lemma InternalDrains(es: seq<Event>)
    requires forall i :: 0 <= i < |es| ==> Progress.Internal(es[i])
    ensures Progress.Draining(es)
  {
  }

  lemma FirstSubmitted(a: nat, job: Job, more: seq<Event>)
    requires forall i :: 0 <= i < |more| ==> Progress.Internal(more[i])
    ensures SubmittedJobs([Submit(a, job)] + more) == [job]
  {
    InternalSubmitsNothing(more);
    assert ([Submit(a, job)] + more)[1..] == more;
  }

  lemma {:induction false} SubmittedConcat(a: seq<Event>, b: seq<Event>)
    ensures SubmittedJobs(a + b) == SubmittedJobs(a) + SubmittedJobs(b)
  {
    hide SubmittedBy;
    if a == [] {
      assert a + b == b;
    } else {
      assert (a + b)[1..] == a[1..] + b;
      SubmittedConcat(a[1..], b);
      assert SubmittedJobs(a + b) == SubmittedBy(a[0]) + (SubmittedJobs(a[1..]) + SubmittedJobs(b));
    }
  }

  // ----- Order -----

  lemma OneAdderStep(s: State, e: Event)
    requires |s.adders| == 1 && Enabled(s, e)
    ensures var t := Do(s, e);
            && |t.adders| == 1
            && t.appended + PendingJob(t.adders[0])
               == s.appended + PendingJob(s.adders[0]) + SubmittedBy(e)
  {
    if e.AdderStep? {
      AdderStepLinks(s, e.a);
    } else if e.WorkerStep? {
      WorkerLinksNothing(s, e.w);
    }
    hide StepAdder, StepWorker;
  }

  lemma {:induction false} OneAdderRun(s: State, es: seq<Event>)
    requires |s.adders| == 1 && Legal(s, es)
    ensures |Run(s, es).adders| == 1
    ensures Run(s, es).appended + PendingJob(Run(s, es).adders[0])
            == s.appended + PendingJob(s.adders[0]) + SubmittedJobs(es)
    decreases |es|
  {
    hide Do, Enabled, PendingJob, SubmittedBy;
    if es != [] {
      OneAdderStep(s, es[0]);
      OneAdderRun(Do(s, es[0]), es[1..]);
      assert Run(s, es) == Run(Do(s, es[0]), es[1..]);
    }
  }

  /**
   With one submitting thread, as in the program, jobs are started in the order of submission:
   what was unlinked, then the queue, then the job in hand is what was submitted.
   */
  lemma StartedInOrder(workers: nat, es: seq<Event>)
    requires Legal(Init(workers, 1), es)
    ensures var s := Run(Init(workers, 1), es);
            |s.adders| == 1 && s.taken + s.list + PendingJob(s.adders[0]) == SubmittedJobs(es)
  {
    OneAdderRun(Init(workers, 1), es);
    Safety.Fifo(workers, 1, es);
    assert Init(workers, 1).appended + PendingJob(Init(workers, 1).adders[0]) == [];
  }
}
