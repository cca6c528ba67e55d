/** What destroying the pool leaves in the queue, and how much of that its cleanup loop frees. */
module ThreadPoolLeftover {
  import opened ThreadPool
  import opened Shutdown = ThreadPoolShutdown
  import WorkQueue

  lemma {:induction false} AppendedGrows(s: State, es: seq<Event>)
    requires Legal(s, es)
    ensures s.appended <= Run(s, es).appended
    decreases |es|
  {
    if es != [] {
      AppendedGrows(Do(s, es[0]), es[1..]);
    }
  }

  lemma FifoOf(s: State)
    requires Inv(s)
    ensures s.appended == s.taken + s.list
  {
  }

  lemma Cancel(a: seq<Job>, b: seq<Job>, c: seq<Job>)
    requires a + b == a + c
    ensures b == c
  {
    assert b == (a + b)[|a|..] && c == (a + c)[|a|..];
  }

  /**
   Once shutdown is stored the queue only grows at its end, save for the head that a worker
   already past its second test of the flag may still take.
   */
  lemma LeftoverIs(s: State, es: seq<Event>) returns (more: seq<Job>)
    requires Inv(s) && s.shutdown && Legal(s, es)
    ensures Run(s, es).appended == s.appended + more
    ensures || Run(s, es).list == s.list + more
            || (Committed(s) && s.list != [] && Run(s, es).list == s.list[1..] + more)
  {
    var t := Run(s, es);
    AtMostOneMoreJob(s, es);
    AppendedGrows(s, es);
    FifoOf(s);
    InvRun(s, es);
    FifoOf(t);
    hide *;
    more := t.appended[|s.appended|..];
    QueueTail(s.taken, s.list, more, t.taken, t.list);
  }

  /** What is left of a queue when all, or all but its head, of what was queued is not taken. */
  lemma QueueTail(taken: seq<Job>, list: seq<Job>, more: seq<Job>, takenThen: seq<Job>, listThen: seq<Job>)
    requires takenThen + listThen == taken + list + more
    requires takenThen == taken || (list != [] && takenThen == taken + [list[0]])
    ensures takenThen == taken ==> listThen == list + more
    ensures takenThen != taken ==> list != [] && listThen == list[1..] + more
  {
    if takenThen == taken {
      assert taken + listThen == taken + (list + more);
      Cancel(taken, listThen, list + more);
    } else {
      var head := [list[0]];
      assert list == head + list[1..];
      assert (taken + head) + listThen == (taken + head) + (list[1..] + more);
      Cancel(taken + head, listThen, list[1..] + more);
    }
  }

  lemma {:induction false} IdleAddersLinkNothing(s: State, es: seq<Event>)
    requires AddersIdle(s) && Legal(s, es)
    requires forall i :: 0 <= i < |es| ==> Closing(es[i])
    ensures Run(s, es).appended == s.appended
    decreases |es|
  {
    if es != [] {
      assert Closing(es[0]) && AddersIdle(Do(s, es[0]));
      IdleAddersLinkNothing(Do(s, es[0]), es[1..]);
    }
  }

  /** Jobs have been added and no worker has run yet. */
  function Backlog(workers: nat, adders: nat, jobs: seq<Job>): State {
    Init(workers, adders).(workernum := |jobs|, list := jobs, appended := jobs)
  }

  lemma AddOne(workers: nat, adders: nat, jobs: seq<Job>, job: Job) returns (es: seq<Event>)
    requires adders > 0
    ensures Legal(Backlog(workers, adders, jobs), es)
    ensures Run(Backlog(workers, adders, jobs), es) == Backlog(workers, adders, jobs + [job])
  {
    var s := Backlog(workers, adders, jobs);
    var s1 := Do(s, Submit(0, job));
    var s2 := Do(s1, AdderStep(0));
    var s3 := Do(s2, AdderStep(0));
    var s4 := Do(s3, AdderStep(0));
    var s5 := Do(s4, AdderStep(0));
    var s6 := Do(s5, NotifyNobody(0));
    assert s6.adders == s.adders;
    es := [];
    es := Prepend(s5, NotifyNobody(0), es);
    es := Prepend(s4, AdderStep(0), es);
    es := Prepend(s3, AdderStep(0), es);
    es := Prepend(s2, AdderStep(0), es);
    es := Prepend(s1, AdderStep(0), es);
    es := Prepend(s, Submit(0, job), es);
  }

  lemma {:induction false} AddAll(workers: nat, adders: nat, jobs: seq<Job>) returns (es: seq<Event>)
    requires adders > 0
    ensures Legal(Init(workers, adders), es)
    ensures Run(Init(workers, adders), es) == Backlog(workers, adders, jobs)
    decreases |jobs|
  {
    if jobs == [] {
      es := [];
    } else {
      var last := |jobs| - 1;
      var first := AddAll(workers, adders, jobs[..last]);
      var more := AddOne(workers, adders, jobs[..last], jobs[last]);
      RunConcat(Init(workers, adders), first, more);
      es := first + more;
      assert jobs[..last] + [jobs[last]] == jobs;
    }
  }

  /**
   Any backlog can outlive the pool: with any number of workers and at least one adder there
   is a run in which all jobs are added, destroy joins every worker, and no job was started.
   Of the nodes left the cleanup loop frees half, so it leaks some unless there are none.
   */
  lemma BacklogLeaks(workers: nat, adders: nat, jobs: seq<Job>) returns (es: seq<Event>)
    requires adders > 0
    ensures Legal(Init(workers, adders), es)
    ensures var t := Run(Init(workers, adders), es);
            && AllJoined(t) && t.taken == [] && t.list == jobs
            && |WorkQueue.FreedOf(t.list)| == |jobs| / 2
            && (jobs != [] ==> |WorkQueue.FreedOf(t.list)| < |t.list|)
  {
    var s := Init(workers, adders);
    var adds := AddAll(workers, adders, jobs);
    var s1 := Backlog(workers, adders, jobs);
    InvInit(workers, adders);
    InvRun(s, adds);
    InvStep(s1, Store);
    var s2 := Do(s1, Store);
    BroadcastDoes(s2);
    var s3 := Do(s2, Broadcast);
    assert !Committed(s3) && AddersIdle(s3) && NoneDoomed(s2);
    var rest := RunToStop(s3);
    LeaversJoin(s2, rest);
    var more := LeftoverIs(s3, rest);
    AtMostOneMoreJob(s3, rest);
    IdleAddersLinkNothing(s3, rest);
    var close := Prepend(s2, Broadcast, rest);
    close := Prepend(s1, Store, close);
    RunConcat(s, adds, close);
    es := adds + close;
    WorkQueue.FreesEveryOther(jobs);
  }
}
