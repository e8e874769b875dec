// The lists of struct rq (kernel/src/kernel/scheduler.h:56-78) that hold a thread's rq_node.
//
// A list operation rewrites links of one list; here it is shown that the other lists of the
// run queue stay intact, because no node is on two of them.
module RunQueues {
  import opened DoublyLinked
  import opened Options
  import opened SchedSpec

  // A thread is handled by its rq_node; obj stands for its tid.
  type Node = DlistNode<nat>
  type Queue = Dlist<nat>

  // struct thread, the fields the scheduler uses.
  datatype Tcb = Tcb(cls: Class, rqList: Option<Queue>, tickToWake: nat, exitPending: bool)

  class Rq {
    const appRq: Queue
    const backgroundRq: Queue
    const rtRq: Queue
    const sleepQ: Queue
    const blockedQ: Queue
    ghost const queues: set<Queue>
    ghost var tracked: set<Node>  // the rq_node of every thread

    // A tracked node is free, or on the one queue that owns it.
    ghost predicate Settled(n: Node)
      reads n, queues
    {
      if n.owner == null then n.Free() else n.owner in queues && n in n.owner.nodes
    }

    ghost predicate Valid()
      reads this, queues, tracked
    {
      && (forall q :: q in queues ==> (forall n :: n in q.nodes ==> n in tracked) && q.Valid())
      && (forall n :: n in tracked ==> Settled(n))
    }

    // The five queues are five lists.
    ghost predicate Five() {
      && queues == {appRq, backgroundRq, rtRq, sleepQ, blockedQ}
      && appRq != backgroundRq && appRq != rtRq && appRq != sleepQ && appRq != blockedQ
      && backgroundRq != rtRq && backgroundRq != sleepQ && backgroundRq != blockedQ
      && rtRq != sleepQ && rtRq != blockedQ && sleepQ != blockedQ
    }

    constructor (app: Queue, background: Queue, rt: Queue, sleep: Queue, blocked: Queue)
      requires app.Valid() && background.Valid() && rt.Valid() && sleep.Valid() && blocked.Valid()
      requires app.nodes == background.nodes == rt.nodes == sleep.nodes == blocked.nodes == []
      requires app != background && app != rt && app != sleep && app != blocked && background != rt
      requires background != sleep && background != blocked && rt != sleep && rt != blocked && sleep != blocked
      ensures Valid() && Five() && tracked == {}
      ensures appRq == app && backgroundRq == background && rtRq == rt && sleepQ == sleep && blockedQ == blocked
    {
      appRq, backgroundRq, rtRq, sleepQ, blockedQ := app, background, rt, sleep, blocked;
      queues, tracked := {app, background, rt, sleep, blocked}, {};
    }

    // All queues but `q` are as before, nodes and all.
    twostate predicate Spared(q: Queue)
      reads queues
    {
      forall p :: p in queues && p != q ==> p.nodes == old(p.nodes)
    }

    method Append(q: Queue, node: Node)
      requires Valid() && q in queues && node in tracked && node.owner == null
      modifies queues, tracked
      ensures Valid() && Spared(q)
      ensures q.nodes == old(q.nodes) + [node]
    {
      q.InsertLast(node);
      forall p | p in queues && p != q
        ensures p.Valid()
      {
        assert forall n :: n in p.nodes ==> old(n.owner) == p;
        Kept(p);
      }
    }

    method TakeFirst(q: Queue) returns (node: Node)
      requires Valid() && q in queues && q.nodes != []
      modifies queues, tracked
      ensures Valid() && node == old(q.nodes)[0] && q.nodes == old(q.nodes)[1..] && Spared(q) && node.owner == null
    {
      node := q.RemoveFirst();
      forall p | p in queues && p != q
        ensures p.Valid()
      {
        assert forall n :: n in p.nodes ==> old(n.owner) == p;
        Kept(p);
      }
    }

    method Take(q: Queue, node: Node, ghost k: nat)
      requires Valid() && q in queues && k < |q.nodes| && q.nodes[k] == node
      modifies queues, tracked
      ensures Valid() && q.nodes == old(q.nodes)[..k] + old(q.nodes)[k + 1..] && Spared(q) && node.owner == null
    {
      q.Remove(node, k);
      forall p | p in queues && p != q
        ensures p.Valid()
      {
        assert forall n :: n in p.nodes ==> old(n.owner) == p;
        Kept(p);
      }
    }

    method InsertBefore(q: Queue, node: Node, anchor: Node, ghost k: nat)
      requires Valid() && q in queues && node in tracked && node.owner == null
      requires k < |q.nodes| && q.nodes[k] == anchor
      modifies queues, tracked
      ensures Valid() && q.nodes == old(q.nodes)[..k] + [node] + old(q.nodes)[k..] && Spared(q)
    {
      q.InsertBefore(node, anchor, k);
      forall p | p in queues && p != q
        ensures p.Valid()
      {
        assert forall n :: n in p.nodes ==> old(n.owner) == p;
        Kept(p);
      }
    }

    method InsertFirst(q: Queue, node: Node)
      requires Valid() && q in queues && node in tracked && node.owner == null
      modifies queues, tracked
      ensures Valid() && q.nodes == [node] + old(q.nodes) && Spared(q)
    {
      q.InsertFirst(node);
      forall p | p in queues && p != q
        ensures p.Valid()
      {
        assert forall n :: n in p.nodes ==> old(n.owner) == p;
        Kept(p);
      }
    }

    // A new thread's node becomes known, or a dead thread's node is forgotten.
    ghost method Track(node: Node)
      requires Valid() && node.Free() && forall q :: q in queues ==> node !in q.nodes
      modifies this`tracked
      ensures Valid() && tracked == old(tracked) + {node}
    {
      tracked := tracked + {node};
    }

    ghost method Forget(node: Node)
      requires Valid() && node.owner == null
      modifies this`tracked
      ensures Valid() && tracked == old(tracked) - {node}
    {
      tracked := tracked - {node};
      assert forall q :: q in queues ==> node !in q.nodes;
    }
  }
}
