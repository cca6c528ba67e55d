/**
 The pool's linked list of work, as it is walked and changed in place while the lock is
 held. The state machine of module ThreadPool treats these critical sections as "append"
 and "take the head"; here the pointer code is proved to do just that.
 */
module WorkQueue {

  class Node<T> {
    var work: T
    var next: Node?<T>

    constructor (work: T)
      ensures this.work == work && this.next == null
    {
      this.work := work;
      this.next := null;
    }
  }

  class Pool<T> {
    var workernum: int
    var workerlist: Node?<T>
    /** The nodes of the list, head first. */
    ghost var nodes: seq<Node<T>>
    ghost var Repr: set<object>

    ghost predicate Valid()
      reads this, Repr
      ensures Valid() ==> this in Repr
    {
      && this in Repr
      && (forall i :: 0 <= i < |nodes| ==> nodes[i] in Repr)
      && workernum == |nodes|
      && workerlist == NodeAt(nodes, 0)
      && (forall i :: 0 <= i < |nodes| ==> nodes[i].next == NodeAt(nodes, i + 1))
    }

    /** The queued work, oldest first. */
    ghost function Contents(): (c: seq<T>)
      requires Valid()
      reads this, Repr
    {
      seq(|nodes|, i requires Valid() && 0 <= i < |nodes| reads this, Repr => nodes[i].work)
    }

    constructor ()
      ensures Valid() && fresh(Repr) && Contents() == [] && nodes == []
    {
      Repr := {this};
      workernum := 0;
      workerlist := null;
      nodes := [];
    }

    /** Lines 115-127: walk to the end, link the new node, count it. */
    method AddWork(work: T)
      requires Valid()
      modifies Repr
      ensures Valid() && fresh(Repr - old(Repr))
      ensures Contents() == old(Contents()) + [work]
      ensures |nodes| == old(|nodes|) + 1 && nodes[..old(|nodes|)] == old(nodes)
    {
      var workertmp := new Node(work);
      var curworker := workerlist;
      ghost var k := 0;
      Acyclic();
      while true
        invariant 0 <= k <= |nodes| && curworker == NodeAt(nodes, k)
        invariant k == |nodes| ==> k == 0
        invariant unchanged(Repr)
        decreases |nodes| - k
      {
        if workerlist == null {
          workerlist := workertmp;
          break;
        } else if curworker.next == null {
          curworker.next := workertmp;
          break;
        }
        curworker := curworker.next;
        k := k + 1;
      }
      workernum := workernum + 1;
      nodes := nodes + [workertmp];
      Repr := Repr + {workertmp};
    }

    /** Lines 86-88: uncount and unlink the head, which the caller knows to exist. */
    method TakeWork() returns (worker: Node<T>)
      requires Valid() && workernum > 0
      modifies this
      ensures Valid() && Repr == old(Repr)
      ensures nodes == old(nodes)[1..] && worker == old(nodes)[0]
      ensures [worker.work] + Contents() == old(Contents())
    {
      workernum := workernum - 1;
      worker := workerlist;
      workerlist := workerlist.next;
      nodes := nodes[1..];
    }

    /**
     Lines 157-164: the loop that is meant to free what is left. Freeing is recorded in the
     order it happens; the loop never follows a pointer out of a freed node.
     */
    method FreeLeftover() returns (freed: seq<Node<T>>)
      requires Valid()
      ensures freed == FreedOf(nodes)
    {
      Acyclic();
      freed := [];
      var phead := workerlist;
      ghost var k := 0;
      while phead != null
        invariant 0 <= k <= |nodes| && phead == NodeAt(nodes, k)
        invariant freed + FreedOf(nodes[k..]) == FreedOf(nodes)
        invariant forall i :: k <= i < |nodes| ==> nodes[i] !in freed
        decreases |nodes| - k
      {
        assert phead !in freed;
        var pnext := phead.next;
        if pnext == null {
          break;
        }
        freed := freed + [phead];
        assert pnext !in freed;
        phead := pnext.next;
        assert nodes[k..][2..] == nodes[k + 2..];
        k := k + 2;
      }
    }

    /** A list that ends never visits a node twice. */
    lemma Acyclic()
      requires Valid()
      ensures forall i, j :: 0 <= i < j < |nodes| ==> nodes[i] != nodes[j]
    {
      forall i, j | 0 <= i < j < |nodes| ensures nodes[i] != nodes[j] {
        Apart(i, j);
      }
    }

    lemma {:induction false} Apart(i: nat, j: nat)
      requires Valid() && i < j < |nodes|
      ensures nodes[i] != nodes[j]
      decreases |nodes| - j
    {
      if nodes[i] == nodes[j] {
        assert nodes[i].next == nodes[j].next;
        if j + 1 < |nodes| {
          Apart(i + 1, j + 1);
        }
      }
    }
  }

  function NodeAt<T>(nodes: seq<Node<T>>, i: nat): Node?<T> {
    if i < |nodes| then nodes[i] else null
  }

  /** What the cleanup loop frees: the first of each adjacent pair. */
  function FreedOf<A>(nodes: seq<A>): seq<A> {
    if |nodes| < 2 then [] else [nodes[0]] + FreedOf(nodes[2..])
  }

  /**
   The loop frees the nodes at even positions that have a successor, once each and in order;
   so it frees half of what is left, and leaks some of it unless nothing is left.
   */
  lemma {:induction false} FreesEveryOther<A>(nodes: seq<A>)
    ensures |FreedOf(nodes)| == |nodes| / 2
    ensures forall k :: 0 <= k < |nodes| / 2 ==> FreedOf(nodes)[k] == nodes[2 * k]
    ensures |FreedOf(nodes)| == |nodes| <==> nodes == []
  {
    if |nodes| >= 2 {
      FreesEveryOther(nodes[2..]);
      forall k | 0 <= k < |nodes| / 2 ensures FreedOf(nodes)[k] == nodes[2 * k] {
        if k > 0 {
          assert nodes[2..][2 * (k - 1)] == nodes[2 * k];
        }
      }
    }
  }
}
