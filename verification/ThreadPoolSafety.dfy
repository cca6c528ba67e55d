/** What holds in every state of every run of the pool. */
module ThreadPoolSafety {
  import opened Seqs
  import opened ThreadPool

  /** The invariant holds after every run from the initial state, whatever the interleaving. */
  lemma Reached(workers: nat, adders: nat, es: seq<Event>)
    requires Legal(Init(workers, adders), es)
    ensures Inv(Run(Init(workers, adders), es))
  {
    InvInit(workers, adders);
    InvRun(Init(workers, adders), es);
  }

  /** No two threads are in critical sections together. */
  lemma MutualExclusion(workers: nat, adders: nat, es: seq<Event>)
    requires Legal(Init(workers, adders), es)
    ensures var s := Run(Init(workers, adders), es);
            && (forall v, w :: 0 <= v < w < |s.workers| ==>
                  !(WorkerInside(s.workers[v]) && WorkerInside(s.workers[w])))
            && (forall a, b :: 0 <= a < b < |s.adders| ==>
                  !(AdderInside(s.adders[a]) && AdderInside(s.adders[b])))
            && (forall a, w :: 0 <= a < |s.adders| && 0 <= w < |s.workers| ==>
                  !(AdderInside(s.adders[a]) && WorkerInside(s.workers[w])))
  {
    Reached(workers, adders, es);
  }

  /** Whenever the lock is free the counter equals the length of the list. */
  lemma CounterMatchesList(workers: nat, adders: nat, es: seq<Event>)
    requires Legal(Init(workers, adders), es)
    ensures var s := Run(Init(workers, adders), es); s.lock.Free? ==> s.workernum == |s.list|
  {
    Reached(workers, adders, es);
  }

  /**
   A worker about to unlink the head always finds one, although shutdown is read twice on
   the way and may change between the two reads.
   */
  lemma DequeueFindsWork(workers: nat, adders: nat, es: seq<Event>, w: nat)
    requires Legal(Init(workers, adders), es)
    requires w < |Run(Init(workers, adders), es).workers|
    ensures var s := Run(Init(workers, adders), es);
            s.workers[w] in {Count, Take} ==> s.list != [] && Enabled(s, WorkerStep(w))
  {
    Reached(workers, adders, es);
  }

  /** First in, first out: what was linked is what was unlinked followed by what is queued. */
  lemma Fifo(workers: nat, adders: nat, es: seq<Event>)
    requires Legal(Init(workers, adders), es)
    ensures var s := Run(Init(workers, adders), es); s.appended == s.taken + s.list
  {
    Reached(workers, adders, es);
  }

  /** No job is duplicated or dropped: every linked job is queued, held, or finished. */
  lemma Conservation(workers: nat, adders: nat, es: seq<Event>, job: Job)
    requires Legal(Init(workers, adders), es)
    ensures var s := Run(Init(workers, adders), es);
            multiset(s.appended)[job]
            == multiset(s.list)[job] + Held(s.workers, job) + multiset(s.finished)[job]
  {
    Reached(workers, adders, es);
  }

  predicate Distinct(jobs: seq<Job>) {
    forall i, j :: 0 <= i < j < |jobs| ==> jobs[i] != jobs[j]
  }

  lemma {:induction false} DistinctOnce(jobs: seq<Job>, job: Job)
    requires Distinct(jobs)
    ensures multiset(jobs)[job] == if job in jobs then 1 else 0
  {
    if jobs != [] {
      var last := |jobs| - 1;
      assert jobs == jobs[..last] + [jobs[last]];
      DistinctOnce(jobs[..last], job);
    }
  }

  /**
   When the linked jobs are distinct, each is in exactly one of the three places, and if a
   worker has it then exactly one worker does.
   */
  lemma ExactlyOnePlace(workers: nat, adders: nat, es: seq<Event>, job: Job)
    requires Legal(Init(workers, adders), es)
    requires Distinct(Run(Init(workers, adders), es).appended)
    requires job in Run(Init(workers, adders), es).appended
    ensures var s := Run(Init(workers, adders), es);
            var held := Held(s.workers, job);
            || (job in s.list && held == 0 && job !in s.finished)
            || (job !in s.list && held == 1 && job !in s.finished)
            || (job !in s.list && held == 0 && job in s.finished)
    ensures var s := Run(Init(workers, adders), es); multiset(s.finished)[job] <= 1
  {
    var s := Run(Init(workers, adders), es);
    Conservation(workers, adders, es, job);
    DistinctOnce(s.appended, job);
    assert job in s.list <==> multiset(s.list)[job] > 0;
    assert job in s.finished <==> multiset(s.finished)[job] > 0;
  }

  /**
   No wakeup is lost on submission: before shutdown, while some worker sleeps, every queued
   job is covered by an adder that has yet to signal or by a worker that has yet to look.
   */
  lemma WakeupsCoverQueue(workers: nat, adders: nat, es: seq<Event>, sleeper: nat)
    requires Legal(Init(workers, adders), es)
    requires sleeper < |Run(Init(workers, adders), es).workers|
    ensures var s := Run(Init(workers, adders), es);
            !s.shutdown && s.workers[sleeper].Waiting? ==>
              |s.list| <= SumBy(s.adders, Owing) + SumBy(s.workers, Looking)
  {
    Reached(workers, adders, es);
  }
}
