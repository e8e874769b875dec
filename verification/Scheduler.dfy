// The kernel's scheduler (kernel/src/kernel/scheduler.c with its classes rt.c, app.c,
// background.c, idle.c and the calls of thread.c) on the linked lists of the run queue.
//
// `state` is a ghost copy of the state in the terms of SchedSpec.dfy. `Matches` says that lists
// and control blocks agree with it; every entry point takes exactly the step that Next says,
// so all that SchedRuns.dfy proves of runs holds of this code.
module Scheduling {
  import opened DoublyLinked
  import opened Options
  import opened RunQueues
  import Spec = SchedSpec
  import Runs = SchedRuns

  type State = Spec.Sched<Node>

  // The class after `c` in the order of priority.
  function NextClass(c: Spec.Class): Option<Spec.Class> {
    match c
    case RealTime => Some(Spec.Application)
    case Application => Some(Spec.Background)
    case Background => Some(Spec.Idle)
    case Idle => None
  }

  // What a class offers the scheduler, and the state once it has been taken.
  ghost function Offer(s: State, c: Spec.Class): Option<Node> {
    match c
    case RealTime => if s.rt == [] then None else Some(s.rt[0])
    case Application => if s.app == [] then None else Some(s.app[0])
    case Background => if s.bg == [] then None else Some(s.bg[0])
    case Idle => s.idle
  }

  ghost function Taken(s: State, c: Spec.Class): State {
    if Offer(s, c) == None then s
    else match c
      case RealTime => s.(rt := s.rt[1..])
      case Application => s.(app := s.app[1..])
      case Background => s.(bg := s.bg[1..])
      case Idle => s
  }

  // Every class before `c` has nothing to offer.
  ghost predicate NothingAbove(s: State, c: Spec.Class) {
    && (c != Spec.RealTime ==> s.rt == [])
    && (c != Spec.RealTime && c != Spec.Application ==> s.app == [])
    && (c == Spec.Idle ==> s.bg == [])
  }

  // What the parts of a tick need of the state they start from.
  lemma TickOrder(s: State, cvr: nat)
    requires Spec.Inv(s) && Spec.Enabled(s, Spec.Systick(cvr))
    ensures var a := Spec.Advanced(s, cvr); forall t :: t in a.sleep ==> t in a.cls && a.cls[t] != Spec.Idle
    ensures var e := Spec.Expire(Spec.Advanced(s, cvr));
            && e.curr.Some? && e.curr.value in e.cls
            && (Spec.WakeOf(e.wake, e.curr.value) == 0 ==> Spec.Times(e, e.curr.value) == 0)
    ensures var r := Spec.Requeue(Spec.Expire(Spec.Advanced(s, cvr)));
            && Spec.CurrBack(r) && r.curr == s.curr && r.exiting == s.exiting
            && (r.curr.value in r.exiting ==> Spec.Reapable(r, r.curr.value))
            && Spec.Reap(r).idle.Some?
    ensures Spec.Inv(Spec.Next(s, Spec.Systick(cvr)))
  {
    var e := Spec.Expire(Spec.Advanced(s, cvr));
    Runs.RequeueUnlinked(s, cvr);
    Spec.ExpiredOrderly(s, cvr);
    Spec.RequeueOrderly(e);
    Spec.SystickInv(s, cvr);
    Spec.ExpireKeeps(Spec.Advanced(s, cvr));
    Spec.EnqueueKeeps(e, e.curr.value);
  }

  class Scheduler {
    const rq: Rq
    var idle: Option<Node>
    var threads: seq<Node>
    var tickToWake: nat
    var currThread: Option<Node>
    var tick: nat
    var reschedulePending: bool
    var blocks: map<Node, Tcb>
    ghost var state: State

    constructor (rq: Rq)
      requires rq.Valid() && rq.Five() && rq.tracked == {}
      ensures Valid() && state == Spec.Start()
      ensures this.rq == rq
    {
      this.rq := rq;
      idle, threads, tickToWake, currThread, tick, reschedulePending := None, [], 0, None, 0, false;
      blocks := map[];
      state := Spec.Start();
      new;
      Runs.StartInv<Node>();
      assert rq.rtRq in rq.queues && rq.appRq in rq.queues && rq.backgroundRq in rq.queues;
      assert rq.sleepQ in rq.queues && rq.blockedQ in rq.queues;
      assert forall q :: q in rq.queues && q.nodes != [] ==> q.nodes[0] in rq.tracked;
    }

    // The queues of the state are the lists of the run queue.
    ghost predicate Queues()
      reads this`state, rq, rq.queues, rq.tracked
    {
      && rq.Valid() && rq.Five() && rq.tracked == state.cls.Keys
      && state.rt == rq.rtRq.nodes && state.app == rq.appRq.nodes && state.bg == rq.backgroundRq.nodes
      && state.sleep == rq.sleepQ.nodes && state.blocked == rq.blockedQ.nodes
    }

    // rq_list: the real-time, sleep or blocked queue that holds the thread.
    ghost function Holder(s: State, n: Node): Option<Queue> {
      if n in s.rt then Some(rq.rtRq)
      else if n in s.sleep then Some(rq.sleepQ)
      else if n in s.blocked then Some(rq.blockedQ)
      else None
    }

    // The control block of a thread says what the state says of it.
    ghost predicate Agrees(s: State, n: Node, b: Tcb) {
      && n in s.cls && n in s.wake
      && b == Tcb(s.cls[n], Holder(s, n), s.wake[n], n in s.exiting)
    }

    ghost predicate Blocks(blocks: map<Node, Tcb>, s: State) {
      blocks.Keys == s.cls.Keys && forall n :: n in blocks ==> Agrees(s, n, blocks[n])
    }

    ghost predicate Scalars()
      reads this
    {
      && state.idle == idle && state.curr == currThread && state.threads == threads
      && state.alarm == tickToWake && state.tick == tick && state.pending == reschedulePending
    }

    ghost predicate Matches()
      reads this, rq, rq.queues, rq.tracked
    {
      Queues() && Blocks(blocks, state) && Scalars()
    }

    // The state with the contents of one queue replaced.
    ghost function Put(s: State, q: Queue, nodes: seq<Node>): State {
      if q == rq.rtRq then s.(rt := nodes)
      else if q == rq.appRq then s.(app := nodes)
      else if q == rq.backgroundRq then s.(bg := nodes)
      else if q == rq.sleepQ then s.(sleep := nodes)
      else s.(blocked := nodes)
    }

    lemma Puts(s: State, nodes: seq<Node>)
      requires rq.Five()
      ensures Put(s, rq.rtRq, nodes) == s.(rt := nodes) && Put(s, rq.appRq, nodes) == s.(app := nodes)
      ensures Put(s, rq.backgroundRq, nodes) == s.(bg := nodes) && Put(s, rq.sleepQ, nodes) == s.(sleep := nodes)
      ensures Put(s, rq.blockedQ, nodes) == s.(blocked := nodes)
    {
    }

    // ---------- list operations ----------

    method PutLast(q: Queue, t: Node)
      requires Queues() && q in rq.queues && t in rq.tracked && t.owner == null
      modifies this`state, rq.queues, rq.tracked
      ensures Queues() && state == Put(old(state), q, old(q.nodes) + [t])
    {
      hide Rq.Valid, Dlist.Valid;
      rq.Append(q, t);
      state := Put(state, q, q.nodes);
    }

    method PutFirst(q: Queue, t: Node)
      requires Queues() && q in rq.queues && t in rq.tracked && t.owner == null
      modifies this`state, rq.queues, rq.tracked
      ensures Queues() && state == Put(old(state), q, [t] + old(q.nodes))
    {
      hide Rq.Valid, Dlist.Valid;
      rq.InsertFirst(q, t);
      state := Put(state, q, q.nodes);
    }

    method PutBefore(q: Queue, t: Node, anchor: Node, ghost k: nat)
      requires Queues() && q in rq.queues && t in rq.tracked && t.owner == null
      requires k < |q.nodes| && q.nodes[k] == anchor
      modifies this`state, rq.queues, rq.tracked
      ensures Queues() && state == Put(old(state), q, old(q.nodes)[..k] + [t] + old(q.nodes)[k..])
    {
      hide Rq.Valid, Dlist.Valid;
      rq.InsertBefore(q, t, anchor, k);
      state := Put(state, q, q.nodes);
    }

    method TakeHead(q: Queue) returns (t: Node)
      requires Queues() && q in rq.queues && q.nodes != []
      modifies this`state, rq.queues, rq.tracked
      ensures Queues() && state == Put(old(state), q, old(q.nodes)[1..]) && t == old(q.nodes)[0] && t.owner == null
    {
      hide Rq.Valid, Dlist.Valid;
      t := rq.TakeFirst(q);
      state := Put(state, q, q.nodes);
    }

    method TakeOut(q: Queue, t: Node)
      requires Queues() && q in rq.queues && t in q.nodes
      modifies this`state, rq.queues, rq.tracked
      ensures Queues() && state == Put(old(state), q, Spec.Without(old(q.nodes), t)) && t.owner == null
    {
      hide Rq.Valid, Dlist.Valid;
      ghost var k := Spec.IndexOf(q.nodes, t);
      rq.Take(q, t, k);
      state := Put(state, q, q.nodes);
    }

    // ---------- what the queues and control blocks say ----------

    lemma Known()
      requires Queues()
      ensures {rq.rtRq, rq.appRq, rq.backgroundRq, rq.sleepQ, rq.blockedQ} <= rq.queues
      ensures forall q :: q in rq.queues ==>
                (q.first == null <==> q.nodes == []) && (q.nodes != [] ==> q.first == q.nodes[0])
    {
    }

    // A thread on a queue is on no other, and not on it twice.
    lemma OneQueue(q: Queue, k: nat)
      requires Queues() && q in rq.queues && k < |q.nodes|
      ensures q.nodes[k] in state.cls && forall p :: p in rq.queues && p != q ==> q.nodes[k] !in p.nodes
      ensures q.nodes[k] !in q.nodes[..k] && q.nodes[k] !in q.nodes[k + 1..]
    {
      assert q.Valid() && q.nodes[k] in q.nodes;
    }

    lemma RtHead()
      requires Queues() && state.rt != []
      ensures var t := state.rt[0]; t in state.cls && t !in state.rt[1..] && t !in state.sleep && t !in state.blocked
    {
      OneQueue(rq.rtRq, 0);
    }

    // A thread on no queue is free.
    lemma Unowned(t: Node)
      requires Queues() && t in state.cls && Spec.Times(state, t) == 0
      ensures t.owner == null && t in rq.tracked
    {
      Spec.TimesIn(state, t);
      assert rq.Settled(t);
    }

    lemma Unheld(s: State, t: Node)
      requires Spec.Times(s, t) == 0
      ensures Holder(s, t) == None && t !in s.rt && t !in s.sleep && t !in s.blocked
    {
      Spec.TimesIn(s, t);
    }

    // Rewriting one control block after a thread has moved.
    lemma BlocksMoved(blocks: map<Node, Tcb>, s: State, s': State, t: Node, b: Tcb)
      requires Blocks(blocks, s) && t in blocks
      requires s'.cls == s.cls && s'.wake.Keys == s.wake.Keys && Agrees(s', t, b)
      requires forall n :: n in blocks && n != t ==> Holder(s', n) == Holder(s, n) && s'.wake[n] == s.wake[n]
      requires forall n :: n in blocks && n != t ==> (n in s'.exiting <==> n in s.exiting)
      ensures Blocks(blocks[t := b], s')
    {
    }

    lemma RtPicked(blocks: map<Node, Tcb>, s: State)
      requires Blocks(blocks, s) && s.rt != [] && s.rt[0] in s.cls
      requires s.rt[0] !in s.rt[1..] && s.rt[0] !in s.sleep && s.rt[0] !in s.blocked
      ensures Blocks(blocks[s.rt[0] := blocks[s.rt[0]].(rqList := None)], s.(rt := s.rt[1..]))
    {
      var t := s.rt[0];
      BlocksMoved(blocks, s, s.(rt := s.rt[1..]), t, blocks[t].(rqList := None));
    }

    lemma RtQueued(blocks: map<Node, Tcb>, s: State, t: Node)
      requires Blocks(blocks, s) && t in s.cls
      ensures Blocks(blocks[t := blocks[t].(rqList := Some(rq.rtRq))], s.(rt := s.rt + [t]))
    {
      var s' := s.(rt := s.rt + [t]);
      assert s'.rt[|s.rt|] == t;
      BlocksMoved(blocks, s, s', t, blocks[t].(rqList := Some(rq.rtRq)));
    }

    // rq_list does not record the other run queues, nor the idle slot.
    lemma BlocksElsewhere(blocks: map<Node, Tcb>, s: State, s': State)
      requires Blocks(blocks, s)
      requires s'.rt == s.rt && s'.sleep == s.sleep && s'.blocked == s.blocked
      requires s'.cls == s.cls && s'.wake == s.wake && s'.exiting == s.exiting
      ensures Blocks(blocks, s')
    {
      forall n | n in blocks
        ensures Agrees(s', n, blocks[n])
      {
        assert Agrees(s, n, blocks[n]);
      }
    }

    // ---------- rt.c, app.c, background.c, idle.c ----------

    method RtPick() returns (t: Option<Node>)
      requires Matches()
      modifies this`state, this`blocks, rq.queues, rq.tracked
      ensures Matches()
      ensures t == if old(state).rt == [] then None else Some(old(state).rt[0])
      ensures state == if t == None then old(state) else old(state).(rt := old(state).rt[1..])
    {
      hide Rq.Valid, Rq.Five, Dlist.Valid, Agrees;
      Known();
      if rq.rtRq.first == null {
        return None;
      }
      RtHead();
      RtPicked(blocks, state);
      var node := TakeHead(rq.rtRq);
      blocks := blocks[node := blocks[node].(rqList := None)];
      t := Some(node);
    }

    method AppPick() returns (t: Option<Node>)
      requires Matches()
      modifies this`state, this`blocks, rq.queues, rq.tracked
      ensures Matches()
      ensures t == if old(state).app == [] then None else Some(old(state).app[0])
      ensures state == if t == None then old(state) else old(state).(app := old(state).app[1..])
    {
      hide Rq.Valid, Rq.Five, Dlist.Valid, Blocks;
      Known();
      if rq.appRq.first == null {
        return None;
      }
      Puts(state, state.app[1..]);
      var node := TakeHead(rq.appRq);
      BlocksElsewhere(blocks, old(state), state);
      t := Some(node);
    }

    method BackgroundPick() returns (t: Option<Node>)
      requires Matches()
      modifies this`state, this`blocks, rq.queues, rq.tracked
      ensures Matches()
      ensures t == if old(state).bg == [] then None else Some(old(state).bg[0])
      ensures state == if t == None then old(state) else old(state).(bg := old(state).bg[1..])
    {
      hide Rq.Valid, Rq.Five, Dlist.Valid, Blocks;
      Known();
      if rq.backgroundRq.first == null {
        return None;
      }
      Puts(state, state.bg[1..]);
      var node := TakeHead(rq.backgroundRq);
      BlocksElsewhere(blocks, old(state), state);
      t := Some(node);
    }

    method RtEnqueue(t: Node)
      requires Matches() && t in blocks && Spec.Times(state, t) == 0
      modifies this`state, this`blocks, rq.queues, rq.tracked
      ensures Matches() && state == old(state).(rt := old(state).rt + [t])
    {
      hide Rq.Valid, Rq.Five, Dlist.Valid, Agrees, Spec.Times;
      Known();
      Unowned(t);
      RtQueued(blocks, state, t);
      PutLast(rq.rtRq, t);
      blocks := blocks[t := blocks[t].(rqList := Some(rq.rtRq))];
    }

    method AppEnqueue(t: Node)
      requires Matches() && t in blocks && Spec.Times(state, t) == 0
      modifies this`state, rq.queues, rq.tracked
      ensures Matches() && state == old(state).(app := old(state).app + [t])
    {
      hide Rq.Valid, Rq.Five, Dlist.Valid, Agrees, Spec.Times;
      Known();
      Unowned(t);
      Puts(state, state.app + [t]);
      PutLast(rq.appRq, t);
      BlocksElsewhere(blocks, old(state), state);
    }

    method BackgroundEnqueue(t: Node)
      requires Matches() && t in blocks && Spec.Times(state, t) == 0
      modifies this`state, rq.queues, rq.tracked
      ensures Matches() && state == old(state).(bg := old(state).bg + [t])
    {
      hide Rq.Valid, Rq.Five, Dlist.Valid, Agrees, Spec.Times;
      Known();
      Unowned(t);
      Puts(state, state.bg + [t]);
      PutLast(rq.backgroundRq, t);
      BlocksElsewhere(blocks, old(state), state);
    }

    method IdleEnqueue(t: Node)
      requires Matches()
      modifies this`state, this`idle
      ensures Matches() && state == old(state).(idle := Some(t))
    {
      hide Rq.Valid, Rq.Five, Dlist.Valid, Agrees;
      idle := Some(t);
      state := state.(idle := Some(t));
      BlocksElsewhere(blocks, old(state), state);
    }

    // The enqueue function of the thread's class.
    method Enqueue(t: Node)
      requires Matches() && t in blocks && Spec.Times(state, t) == 0
      modifies this`state, this`blocks, this`idle, rq.queues, rq.tracked
      ensures Matches() && state == Spec.Enqueue(old(state), t)
    {
      hide Queues, Spec.Times, Scalars, Holder;
      match blocks[t].cls
      case RealTime => RtEnqueue(t);
      case Application => AppEnqueue(t);
      case Background => BackgroundEnqueue(t);
      case Idle => IdleEnqueue(t);
    }

    // The pick function of a class.
    method PickThread(c: Spec.Class) returns (t: Option<Node>)
      requires Matches()
      modifies this`state, this`blocks, rq.queues, rq.tracked
      ensures Matches() && t == Offer(old(state), c) && state == Taken(old(state), c)
    {
      hide Queues, Blocks, Holder;
      match c
      case RealTime => t := RtPick();
      case Application => t := AppPick();
      case Background => t := BackgroundPick();
      case Idle => t := idle;
    }

    // ---------- scheduler.c ----------

    method CoreScheduler() returns (t: Option<Node>)
      requires Matches() && state.idle.Some?
      modifies this`state, this`blocks, rq.queues, rq.tracked
      ensures Matches() && t.Some?
      ensures state.(curr := t) == Spec.Pick(old(state)) && state.curr == old(state.curr)
    {
      hide Queues, Blocks, Holder;
      var c := Spec.RealTime;
      while true
        invariant Matches() && state == old(state) && NothingAbove(state, c)
        decreases if c == Spec.RealTime then 3 else if c == Spec.Application then 2
                  else if c == Spec.Background then 1 else 0
      {
        t := PickThread(c);
        if t.Some? {
          return;
        }
        c := NextClass(c).value;
      }
    }

    method TickToWakeUpdate()
      requires Matches()
      modifies this`state, this`tickToWake
      ensures Matches() && state == old(state).(alarm := Spec.Alarm(old(state).sleep, old(state).wake))
    {
      hide Rq.Valid, Rq.Five, Dlist.Valid, Agrees;
      Known();
      if rq.sleepQ.first != null {
        SleepHead();
        tickToWake := blocks[rq.sleepQ.first].tickToWake;
      } else {
        tickToWake := 0;
      }
      state := state.(alarm := tickToWake);
      BlocksElsewhere(blocks, old(state), state);
    }

    // The first sleeper has a control block, which holds its wake-up time.
    lemma SleepHead()
      requires Queues() && Blocks(blocks, state) && state.sleep != []
      ensures state.sleep[0] in blocks
      ensures blocks[state.sleep[0]].tickToWake == Spec.WakeOf(state.wake, state.sleep[0])
      ensures state.sleep[0] !in state.sleep[1..] && state.sleep[0] !in state.rt && state.sleep[0] !in state.blocked
    {
      OneQueue(rq.sleepQ, 0);
    }

    lemma WithoutHead(q: seq<Node>)
      requires q != [] && q[0] !in q[1..]
      ensures Spec.Without(q, q[0]) == q[1..]
    {
    }

    // The first sleeper has left the sleep queue and is on no other.
    lemma HeadLeft(s: State)
      requires s.sleep != [] && s.sleep[0] !in s.sleep[1..]
      requires s.sleep[0] !in s.rt && s.sleep[0] !in s.app && s.sleep[0] !in s.bg && s.sleep[0] !in s.blocked
      ensures Spec.Times(s.(sleep := s.sleep[1..]), s.sleep[0]) == 0
    {
      Spec.TimesIn(s.(sleep := s.sleep[1..]), s.sleep[0]);
    }

    lemma SleepHeadAlone()
      requires Queues() && state.sleep != []
      ensures var t := state.sleep[0];
              t in state.cls && t !in state.sleep[1..] && t !in state.rt && t !in state.app && t !in state.bg
                && t !in state.blocked
    {
      OneQueue(rq.sleepQ, 0);
    }

    lemma SleepUnlisted(blocks: map<Node, Tcb>, s: State)
      requires Blocks(blocks, s) && s.sleep != [] && s.sleep[0] in s.cls
      requires s.sleep[0] !in s.rt && s.sleep[0] !in s.sleep[1..] && s.sleep[0] !in s.blocked
      ensures Blocks(blocks[s.sleep[0] := blocks[s.sleep[0]].(rqList := None)], s.(sleep := s.sleep[1..]))
    {
      var t := s.sleep[0];
      BlocksMoved(blocks, s, s.(sleep := s.sleep[1..]), t, blocks[t].(rqList := None));
    }

    // dlist_remove and rq_list = NULL of process_expired_delays
    method Unsleep(t: Node)
      requires Matches() && state.sleep != [] && t == state.sleep[0]
      modifies this`state, this`blocks, rq.queues, rq.tracked
      ensures Matches() && state == old(state).(sleep := old(state).sleep[1..])
      ensures t in blocks && Spec.Times(state, t) == 0
    {
      hide Rq.Valid, Rq.Five, Dlist.Valid, Agrees, Spec.Times;
      Known();
      SleepHeadAlone();
      HeadLeft(state);
      WithoutHead(state.sleep);
      SleepUnlisted(blocks, state);
      Puts(state, state.sleep[1..]);
      TakeOut(rq.sleepQ, t);
      blocks := blocks[t := blocks[t].(rqList := None)];
    }

    lemma Timeless(blocks: map<Node, Tcb>, s: State, t: Node, w: nat)
      requires Blocks(blocks, s) && t in blocks
      ensures Blocks(blocks[t := blocks[t].(tickToWake := w)], s.(wake := s.wake[t := w]))
    {
      BlocksMoved(blocks, s, s.(wake := s.wake[t := w]), t, blocks[t].(tickToWake := w));
    }

    method SetTickToWake(t: Node, w: nat)
      requires Matches() && t in state.cls
      modifies this`state, this`blocks
      ensures Matches() && state == old(state).(wake := old(state).wake[t := w])
      ensures t in blocks && blocks[t].tickToWake == w
    {
      hide Rq.Valid, Rq.Five, Dlist.Valid, Agrees;
      Timeless(blocks, state, t, w);
      blocks := blocks[t := blocks[t].(tickToWake := w)];
      state := state.(wake := state.wake[t := w]);
    }

    // A thread that has just been enqueued is the tail of its queue: it has no next link.
    lemma TailUnlinked(s: State, t: Node)
      requires Queues() && t in s.cls && s.cls[t] != Spec.Idle && state.rt == Spec.Enqueue(s, t).rt
      requires state.app == Spec.Enqueue(s, t).app && state.bg == Spec.Enqueue(s, t).bg
      ensures t.next == null
    {
      var q := if s.cls[t] == Spec.RealTime then rq.rtRq
               else if s.cls[t] == Spec.Application then rq.appRq
               else rq.backgroundRq;
      assert q.Valid() && q.nodes[|q.nodes| - 1] == t;
    }

    // The body of the loop of process_expired_delays, for a thread that is due
    method WakeFirst(t: Node)
      requires Matches() && state.sleep != [] && t == state.sleep[0]
      requires t in state.cls && state.cls[t] != Spec.Idle
      modifies this`state, this`blocks, this`idle, rq.queues, rq.tracked
      ensures Matches() && state == Spec.WakeHead(old(state)) && t.next == null
    {
      hide Rq.Valid, Rq.Five, Dlist.Valid, Agrees, Spec.Times, Spec.Enqueue, Queues;
      Unsleep(t);
      ghost var s := state;
      Spec.EnqueueKeeps(s, t);
      Enqueue(t);
      SetTickToWake(t, 0);
      TailUnlinked(s, t);
    }

    // The loop goes on with the next link of the node it has just moved; that node is the tail
    // of another queue by then, so at most one thread is woken.
    method ProcessExpiredDelays()
      requires Matches() && forall t :: t in state.sleep ==> t in state.cls && state.cls[t] != Spec.Idle
      modifies this`state, this`blocks, this`idle, this`tickToWake, rq.queues, rq.tracked
      ensures Matches() && state == Spec.Expire(old(state))
    {
      hide Rq.Valid, Rq.Five, Dlist.Valid, Agrees, Spec.Enqueue, Holder;
      if tickToWake <= tick && tickToWake != 0 {
        Known();
        var iter := rq.sleepQ.first;
        ghost var done := false;
        while iter != null
          invariant Matches()
          invariant done ==> iter == null
          invariant !done ==>
                      state == old(state) && (if state.sleep == [] then iter == null else iter == state.sleep[0])
          invariant done ==> Spec.HeadExpired(old(state)) && state == Spec.WakeHead(old(state))
          decreases if done then 0 else 1
        {
          SleepHead();
          if blocks[iter].tickToWake < tick {
            WakeFirst(iter);
            done := true;
          } else {
            break;
          }
          iter := iter.next;
        }
        TickToWakeUpdate();
      }
    }

    // ---------- sleep ----------

    lemma SleepPosIs(q: seq<Node>, wake: map<Node, nat>, due: nat, p: nat)
      requires p <= |q| && (p < |q| ==> Spec.WakeOf(wake, q[p]) > due)
      requires forall j :: 0 <= j < p ==> Spec.WakeOf(wake, q[j]) <= due
      ensures Spec.SleepPos(q, wake, due) == p
    {
    }

    lemma SleeperAt(k: nat)
      requires Queues() && Blocks(blocks, state) && k < |state.sleep|
      ensures state.sleep[k] in blocks
      ensures blocks[state.sleep[k]].tickToWake == Spec.WakeOf(state.wake, state.sleep[k])
      ensures state.sleep[k].next == if k + 1 < |state.sleep| then state.sleep[k + 1] else null
    {
      OneQueue(rq.sleepQ, k);
      assert rq.sleepQ.Valid();
    }

    lemma SleepQueued(blocks: map<Node, Tcb>, s: State, t: Node, p: nat)
      requires Blocks(blocks, s) && t in s.cls && t !in s.rt && p <= |s.sleep|
      ensures Blocks(blocks[t := blocks[t].(rqList := Some(rq.sleepQ))], s.(sleep := s.sleep[..p] + [t] + s.sleep[p..]))
    {
      var s' := s.(sleep := s.sleep[..p] + [t] + s.sleep[p..]);
      assert s'.sleep[p] == t;
      assert s.sleep == s.sleep[..p] + s.sleep[p..];
      BlocksMoved(blocks, s, s', t, blocks[t].(rqList := Some(rq.sleepQ)));
    }

    // The place of a new sleeper: before the first one that wakes later
    method FindSleepPos(due: nat) returns (iter: DlistNode?<nat>, ghost p: nat)
      requires Matches()
      ensures p == Spec.SleepPos(state.sleep, state.wake, due) <= |state.sleep|
      ensures iter == if p < |state.sleep| then state.sleep[p] else null
    {
      hide Rq.Valid, Rq.Five, Dlist.Valid, Agrees, Spec.SleepPos;
      Known();
      iter, p := rq.sleepQ.first, 0;
      while iter != null
        invariant p <= |state.sleep| && iter == if p < |state.sleep| then state.sleep[p] else null
        invariant forall j :: 0 <= j < p ==> Spec.WakeOf(state.wake, state.sleep[j]) <= due
        decreases |state.sleep| - p
      {
        SleeperAt(p);
        if blocks[iter].tickToWake > due {
          break;
        }
        iter := iter.next;
        p := p + 1;
      }
      SleepPosIs(state.sleep, state.wake, due, p);
    }

    // The insertion of scheduler_enqueue_delay
    method InsertSleeper(t: Node)
      requires Matches() && t in blocks && Spec.Times(state, t) == 0
      modifies this`state, rq.queues, rq.tracked
      ensures Queues() && Scalars()
      ensures var old_, due := old(state), old(blocks)[t].tickToWake;
              var p := Spec.SleepPos(old_.sleep, old_.wake, due);
              state == old_.(sleep := old_.sleep[..p] + [t] + old_.sleep[p..])
    {
      hide Rq.Valid, Rq.Five, Dlist.Valid, Agrees, Spec.Times, Spec.SleepPos;
      Known();
      Unowned(t);
      var iter, p := FindSleepPos(blocks[t].tickToWake);
      Puts(state, state.sleep[..p] + [t] + state.sleep[p..]);
      if rq.sleepQ.first == null {
        PutFirst(rq.sleepQ, t);
      } else if iter != null {
        PutBefore(rq.sleepQ, t, iter, p);
      } else {
        PutLast(rq.sleepQ, t);
      }
    }

    method SchedulerEnqueueDelay(t: Node)
      requires Matches() && t in blocks && Spec.Times(state, t) == 0
      modifies this`state, this`blocks, this`tickToWake, rq.queues, rq.tracked
      ensures Matches()
      ensures var sleep := Spec.SleepInsert(old(state).sleep, old(state).wake, t, old(blocks)[t].tickToWake);
              state == old(state).(sleep := sleep, alarm := Spec.Alarm(sleep, old(state).wake))
    {
      hide Rq.Valid, Rq.Five, Dlist.Valid, Agrees, Spec.Times;
      Unheld(state, t);
      ghost var p := Spec.SleepPos(state.sleep, state.wake, blocks[t].tickToWake);
      SleepQueued(blocks, state, t, p);
      InsertSleeper(t);
      blocks := blocks[t := blocks[t].(rqList := Some(rq.sleepQ))];
      TickToWakeUpdate();
    }

    // ---------- exit ----------

    lemma WithoutAbsent(q: seq<Node>, t: Node)
      requires t !in q
      ensures Spec.Without(q, t) == q
    {
    }

    // The thread is on the queue its control block names, and on no other.
    lemma HeldBy(t: Node)
      requires Queues() && Blocks(blocks, state) && t in state.cls
               && (t in state.rt || t in state.sleep || t in state.blocked)
      ensures t in blocks && blocks[t].rqList.Some?
      ensures var q := blocks[t].rqList.value;
              && q in rq.queues && t in q.nodes && (q == rq.rtRq || q == rq.sleepQ || q == rq.blockedQ)
              && (q == rq.blockedQ <==> t in state.blocked)
              && (t in state.blocked ==> t !in state.rt && t !in state.sleep)
      ensures forall q :: q in rq.queues && q != blocks[t].rqList.value ==> t !in q.nodes
    {
      assert Agrees(state, t, blocks[t]);
      var q := blocks[t].rqList.value;
      var k :| 0 <= k < |q.nodes| && q.nodes[k] == t;
      OneQueue(q, k);
    }

    // The removal from rq_list of scheduler_remove_thread, rt_block and rt_unblock
    method Unlist(t: Node)
      requires Matches() && t in state.cls && (t in state.rt || t in state.sleep || t in state.blocked)
      modifies this`state, rq.queues, rq.tracked
      ensures Queues() && Scalars() && t.owner == null
      ensures var s := old(state);
              state == s.(rt := Spec.Without(s.rt, t), sleep := Spec.Without(s.sleep, t),
                          blocked := Spec.Without(s.blocked, t))
    {
      hide Rq.Valid, Dlist.Valid, Agrees, Blocks;
      Known();
      HeldBy(t);
      Puts(state, Spec.Without(blocks[t].rqList.value.nodes, t));
      if t !in state.rt { WithoutAbsent(state.rt, t); }
      if t !in state.sleep { WithoutAbsent(state.sleep, t); }
      if t !in state.blocked { WithoutAbsent(state.blocked, t); }
      TakeOut(blocks[t].rqList.value, t);
    }

    lemma BlocksRemoved(blocks: map<Node, Tcb>, s: State, c: Node)
      requires Blocks(blocks, s)
      ensures Blocks(blocks - {c}, Spec.Removed(s, c))
    {
      var s' := Spec.Removed(s, c);
      Spec.WithoutMembers(s.rt, c);
      Spec.WithoutMembers(s.sleep, c);
      forall n | n in blocks - {c}
        ensures Agrees(s', n, blocks[n])
      {
        assert Agrees(s, n, blocks[n]);
      }
    }

    method RemoveThread()
      requires Matches() && state.curr.Some? && state.curr.value in state.cls && state.curr.value !in state.blocked
      requires state.curr.value in state.rt || state.curr.value in state.sleep
      modifies this, rq`tracked, rq.queues, rq.tracked
      ensures Matches() && state == Spec.Removed(old(state), old(state).curr.value)
      ensures old(state).curr.value.Free() && rq.tracked == old(rq.tracked) - {old(state).curr.value}
    {
      hide Rq.Valid, Rq.Five, Dlist.Valid, Agrees, Spec.Without, Spec.IndexOf;
      var c := currThread.value;
      BlocksRemoved(blocks, state, c);
      var left := RemoveFrom(threads, c);
      ghost var s := state;
      Detach(c);
      threads := left;
      blocks := blocks - {c};
      currThread := None;
      state := state.(threads := left, wake := state.wake - {c}, exiting := state.exiting - {c}, curr := None);
      assert state == Spec.Removed(s, c);
    }

    // The thread leaves its queue, and its links are found clear.
    method Detach(c: Node)
      requires Matches() && c in state.cls && c !in state.blocked && (c in state.rt || c in state.sleep)
      modifies this`state, rq`tracked, rq.queues, rq.tracked
      ensures Queues() && Scalars() && c.Free() && rq.tracked == old(rq.tracked) - {c}
      ensures var s := old(state);
              state == s.(rt := Spec.Without(s.rt, c), sleep := Spec.Without(s.sleep, c), cls := s.cls - {c})
    {
      hide Rq.Valid, Rq.Five, Dlist.Valid, Agrees, Spec.Without, Spec.IndexOf;
      WithoutAbsent(state.blocked, c);
      Unlist(c);
      Unlinked(c);
      Ownerless(c);
      var clear := ExitCheck(c);
      assert clear;
      Bury(c);
    }

    // The check that an exiting thread is on no list: where it fails the source panics. It looks
    // at the links, and passes a thread that is alone on its queue.
    method ExitCheck(c: Node) returns (clear: bool)
      requires Queues() && c in state.cls
      ensures clear <==> forall q :: q in rq.queues && c in q.nodes ==> q.nodes == [c]
    {
      clear := c.next == null && c.prev == null;
      if c.owner == null {
        Unlinked(c);
        Ownerless(c);
      } else {
        OnlyOwner(c);
        EndsOf(c.owner, c);
      }
    }

    lemma Ownerless(c: Node)
      requires rq.Valid() && c.owner == null
      ensures forall q :: q in rq.queues ==> c !in q.nodes
    {
    }

    lemma OnlyOwner(c: Node)
      requires rq.Valid() && c in rq.tracked && c.owner != null
      ensures c.owner in rq.queues && c in c.owner.nodes && c.owner.Valid()
      ensures forall q :: q in rq.queues && c in q.nodes ==> q == c.owner
    {
    }

    lemma EndsOf(q: Queue, c: Node)
      requires q.Valid() && c in q.nodes
      ensures c.next == null && c.prev == null <==> q.nodes == [c]
    {
      var i :| 0 <= i < |q.nodes| && q.nodes[i] == c;
      assert c.prev == (if i == 0 then null else q.nodes[i - 1]);
      assert c.next == if i == |q.nodes| - 1 then null else q.nodes[i + 1];
    }

    // mm_free of the control block
    ghost method Bury(c: Node)
      requires Queues() && c in state.cls && c.owner == null
      modifies this`state, rq`tracked
      ensures Queues() && state == old(state).(cls := old(state).cls - {c}) && rq.tracked == old(rq.tracked) - {c}
    {
      hide Rq.Valid, Rq.Five, Dlist.Valid;
      rq.Forget(c);
      state := state.(cls := state.cls - {c});
    }

    // A node no queue owns has no links.
    lemma Unlinked(t: Node)
      requires Queues() && t in rq.tracked && t.owner == null
      ensures t.Free()
    {
    }

    // dlist_remove on the list of all threads
    method RemoveFrom(q: seq<Node>, t: Node) returns (r: seq<Node>)
      ensures r == Spec.Without(q, t)
    {
      var i := 0;
      while i < |q| && q[i] != t
        invariant i <= |q| && t !in q[..i]
      {
        i := i + 1;
      }
      if i == |q| {
        return q;
      }
      assert Spec.IndexOf(q, t) == i;
      r := q[..i] + q[i + 1..];
    }

    // ---------- the steps ----------

    ghost predicate Valid()
      reads this, rq, rq.queues, rq.tracked
    {
      Matches() && Spec.Inv(state)
    }

    // get_curr_thread_runtime, and the clock
    method AdvanceTick(cvr: nat)
      requires Matches() && cvr <= Spec.RVR
      modifies this`state, this`tick, this`reschedulePending
      ensures Matches() && state == Spec.Advanced(old(state), cvr)
      ensures tick == old(tick) + if old(reschedulePending) then Spec.RVR - cvr else Spec.RVR
    {
      hide Rq.Valid, Rq.Five, Dlist.Valid, Agrees;
      var runtime := Spec.RVR;
      if reschedulePending {
        reschedulePending := false;
        runtime := Spec.RVR - cvr;
      }
      tick := tick + runtime;
      state := Spec.Advanced(state, cvr);
      BlocksElsewhere(blocks, old(state), state);
    }

    // The running thread is put back unless it has gone to sleep.
    method RequeueCurrent()
      requires Matches() && state.curr.Some? && state.curr.value in state.cls
      requires Spec.WakeOf(state.wake, state.curr.value) == 0 ==> Spec.Times(state, state.curr.value) == 0
      modifies this`state, this`blocks, this`idle, rq.queues, rq.tracked
      ensures Matches() && state == Spec.Requeue(old(state))
    {
      hide Queues, Holder, Spec.Times, Spec.Enqueue;
      var c := currThread.value;
      if blocks[c].tickToWake == 0 {
        Enqueue(c);
      }
    }

    method ReapCurrent()
      requires Matches() && Spec.CurrBack(state)
      requires state.curr.value in state.exiting ==> Spec.Reapable(state, state.curr.value)
      modifies this, rq`tracked, rq.queues, rq.tracked
      ensures Matches() && state == Spec.Reap(old(state)) && rq.tracked <= old(rq.tracked)
      ensures var c := old(state).curr.value; c in old(state).exiting ==> c.Free() && c !in rq.tracked
    {
      hide Queues, Holder;
      if blocks[currThread.value].exitPending {
        RemoveThread();
      }
    }

    // systick_exception followed by the context switch it pends
    method SystickException(cvr: nat)
      requires Valid() && Spec.Enabled(state, Spec.Systick(cvr))
      modifies this, rq`tracked, rq.queues, rq.tracked
      ensures Valid() && state == Spec.Next(old(state), Spec.Systick(cvr))
      ensures old(state).curr.value in old(state).exiting ==> old(state).curr.value.Free()
    {
      hide Matches, Spec.Times, Spec.Enqueue, Spec.Expire, Spec.Advanced, Spec.Requeue, Spec.Reap, Spec.Pick,
           Spec.CurrBack;
      hide Spec.Inv;
      ghost var s := state;
      TickOrder(s, cvr);
      AdvanceTick(cvr);
      ProcessExpiredDelays();
      RequeueCurrent();
      ReapCurrent();
      Reschedule();
    }

    // The pick, and the context switch to the thread it chose
    method Reschedule()
      requires Matches() && state.idle.Some?
      modifies this, rq.queues, rq.tracked
      ensures Matches() && state == Spec.Pick(old(state))
    {
      hide Rq.Valid, Rq.Five, Dlist.Valid, Agrees, Spec.Pick;
      var next := CoreScheduler();
      ghost var s := state;
      currThread := next;
      state := state.(curr := next);
      BlocksElsewhere(blocks, s, state);
    }

    lemma Registered(blocks: map<Node, Tcb>, s: State, t: Node, c: Spec.Class)
      requires Blocks(blocks, s) && t !in s.cls && Holder(s, t) == None && t !in s.exiting && s.wake.Keys == s.cls.Keys
      ensures Blocks(blocks[t := Tcb(c, None, 0, false)], s.(cls := s.cls[t := c], wake := s.wake[t := 0]))
    {
      var s' := s.(cls := s.cls[t := c], wake := s.wake[t := 0]);
      forall n | n in s'.cls
        ensures Agrees(s', n, blocks[t := Tcb(c, None, 0, false)][n])
      {
        assert n != t ==> Agrees(s, n, blocks[n]);
      }
    }

    // A node the scheduler does not know is on none of its queues.
    lemma Unknown(t: Node)
      requires Queues() && t !in state.cls
      ensures Spec.Times(state, t) == 0 && forall q :: q in rq.queues ==> t !in q.nodes
    {
      Spec.TimesIn(state, t);
    }

    ghost method Learn(t: Node, c: Spec.Class)
      requires Queues() && t !in state.cls && t.Free()
      modifies this`state, rq`tracked
      ensures Queues() && state == old(state).(cls := old(state).cls[t := c], wake := old(state).wake[t := 0])
      ensures rq.tracked == old(rq.tracked) + {t} && Spec.Times(state, t) == 0
    {
      hide Rq.Valid, Rq.Five, Dlist.Valid, Spec.Occ;
      Unknown(t);
      rq.Track(t);
      state := state.(cls := state.cls[t := c], wake := state.wake[t := 0]);
    }

    // The control block of a new thread
    method Register(t: Node, c: Spec.Class)
      requires Matches() && t !in state.cls && t.Free() && Spec.Tables(state)
      modifies this`state, this`blocks, rq`tracked
      ensures Matches() && t in blocks && Spec.Times(state, t) == 0
      ensures state == old(state).(cls := old(state).cls[t := c], wake := old(state).wake[t := 0])
      ensures rq.tracked == old(rq.tracked) + {t}
    {
      hide Rq.Valid, Rq.Five, Dlist.Valid, Agrees, Spec.Times;
      Unknown(t);
      Unheld(state, t);
      Registered(blocks, state, t, c);
      Learn(t, c);
      blocks := blocks[t := Tcb(c, None, 0, false)];
    }

    // dlist_insert_first on the list of all threads
    method AddThread(t: Node)
      requires Matches()
      modifies this`state, this`threads
      ensures Matches() && state == old(state).(threads := [t] + old(state).threads)
    {
      hide Rq.Valid, Rq.Five, Dlist.Valid, Agrees;
      threads := [t] + threads;
      state := state.(threads := [t] + state.threads);
      BlocksElsewhere(blocks, old(state), state);
    }

    lemma CreatedIs(s: State, t: Node, c: Spec.Class)
      ensures Spec.Created(s, t, c) ==
              Spec.Enqueue(s.(cls := s.cls[t := c], wake := s.wake[t := 0]), t).(threads := [t] + s.threads)
      ensures Spec.Enqueue(s.(cls := s.cls[t := c], wake := s.wake[t := 0]), t).threads == s.threads
    {
    }

    method NewThread(c: Spec.Class, tid: nat) returns (t: Node)
      requires Matches() && Spec.Tables(state)
      modifies this, rq`tracked, rq.queues, rq.tracked
      ensures Matches() && fresh(t) && state == Spec.Created(old(state), t, c)
      ensures rq.tracked == old(rq.tracked) + {t}
    {
      hide Rq.Valid, Rq.Five, Dlist.Valid, Agrees, Spec.Times, Spec.Enqueue, Spec.Created;
      t := new DlistNode(tid);
      CreatedIs(state, t, c);
      Register(t, c);
      Enqueue(t);
      AddThread(t);
    }

    // ---------- steps other than the tick ----------

    lemma BootOrder(s: State, t: Node)
      requires Spec.Inv(s) && Spec.Enabled(s, Spec.Boot(t))
      ensures Spec.Created(s, t, Spec.Idle).idle.Some?
      ensures Spec.Created(s.(alarm := 0), t, Spec.Idle) == Spec.Created(s, t, Spec.Idle).(alarm := 0)
      ensures Spec.Tables(s) && Spec.Tables(s.(alarm := 0)) && Spec.Inv(Spec.Next(s, Spec.Boot(t)))
    {
      Spec.CreatedKeeps(s, t, Spec.Idle);
      Spec.NextInv(s, Spec.Boot(t));
    }

    method ClearTickToWake()
      requires Matches()
      modifies this`state, this`tickToWake
      ensures Matches() && state == old(state).(alarm := 0)
    {
      hide Rq.Valid, Rq.Five, Dlist.Valid, Agrees;
      tickToWake := 0;
      state := state.(alarm := 0);
      BlocksElsewhere(blocks, old(state), state);
    }

    method SchedulerStart(tid: nat) returns (t: Node)
      requires Valid() && state.idle.None? && state.curr.None?
      modifies this, rq`tracked, rq.queues, rq.tracked
      ensures fresh(t) && Valid() && state == Spec.Next(old(state), Spec.Boot(t))
    {
      hide Matches, Spec.Times, Spec.Enqueue, Spec.Created, Spec.Pick, Spec.Inv;
      ghost var s := state;
      assert Spec.Tables(s.(alarm := 0)) by { TablesOf(s); }
      ClearTickToWake();
      t := NewThread(Spec.Idle, tid);
      BootOrder(s, t);
      Reschedule();
    }

    lemma TablesOf(s: State)
      requires Spec.Inv(s)
      ensures Spec.Tables(s) && Spec.Tables(s.(alarm := 0))
    {
    }

    // new_thread, called by a thread or before the scheduler runs
    method SpawnThread(c: Spec.Class, tid: nat) returns (t: Node)
      requires Valid() && c != Spec.Idle
      modifies this, rq`tracked, rq.queues, rq.tracked
      ensures fresh(t) && Valid() && state == Spec.Next(old(state), Spec.New(t, c))
    {
      hide Matches, Spec.Times, Spec.Enqueue, Spec.Created, Spec.Inv;
      TablesOf(state);
      t := NewThread(c, tid);
      Spec.NextInv(old(state), Spec.New(t, c));
    }

    lemma SleepOrder(s: State, ms: nat)
      requires Spec.Inv(s) && Spec.Enabled(s, Spec.Sleep(ms))
      ensures s.curr.value in s.cls && Spec.Times(s, s.curr.value) == 0
      ensures Spec.Inv(Spec.Next(s, Spec.Sleep(ms)))
    {
      Spec.NextInv(s, Spec.Sleep(ms));
    }

    lemma TimesOf(s: State, wake: map<Node, nat>, t: Node)
      ensures Spec.Times(s.(wake := wake), t) == Spec.Times(s, t)
    {
    }

    // reschedule
    method PendReschedule()
      requires Matches()
      modifies this`state, this`reschedulePending
      ensures Matches() && state == old(state).(pending := true)
    {
      hide Rq.Valid, Rq.Five, Dlist.Valid, Agrees;
      reschedulePending := true;
      state := state.(pending := true);
      BlocksElsewhere(blocks, old(state), state);
    }

    method ThreadSleep(ms: nat)
      requires Valid() && Spec.Enabled(state, Spec.Sleep(ms))
      modifies this, rq.queues, rq.tracked
      ensures Valid() && state == Spec.Next(old(state), Spec.Sleep(ms))
    {
      hide Queues, Blocks, Spec.Times, Spec.Inv, Spec.SleepInsert;
      var c := currThread.value;
      SleepOrder(state, ms);
      TimesOf(state, state.wake[c := tick + ms * Spec.RVR], c);
      SetTickToWake(c, tick + ms * Spec.RVR);
      SchedulerEnqueueDelay(c);
      PendReschedule();
    }

    lemma BlocksBlocked(blocks: map<Node, Tcb>, s: State, t: Node)
      requires Blocks(blocks, s) && t in s.cls && t !in Spec.Without(s.rt, t) && t !in Spec.Without(s.sleep, t)
      ensures Blocks(blocks[t := blocks[t].(rqList := Some(rq.blockedQ))],
                     s.(rt := Spec.Without(s.rt, t), sleep := Spec.Without(s.sleep, t), blocked := s.blocked + [t]))
    {
      var s' := s.(rt := Spec.Without(s.rt, t), sleep := Spec.Without(s.sleep, t), blocked := s.blocked + [t]);
      Spec.WithoutMembers(s.rt, t);
      Spec.WithoutMembers(s.sleep, t);
      assert s'.blocked[|s.blocked|] == t;
      BlocksMoved(blocks, s, s', t, blocks[t].(rqList := Some(rq.blockedQ)));
    }

    lemma BlocksUnblocked(blocks: map<Node, Tcb>, s: State, t: Node)
      requires Blocks(blocks, s) && t in s.cls
      ensures Blocks(blocks[t := blocks[t].(rqList := Some(rq.rtRq), tickToWake := 0)],
                     s.(blocked := Spec.Without(s.blocked, t), wake := s.wake[t := 0], rt := s.rt + [t]))
    {
      var s' := s.(blocked := Spec.Without(s.blocked, t), wake := s.wake[t := 0], rt := s.rt + [t]);
      Spec.WithoutMembers(s.blocked, t);
      assert s'.rt[|s.rt|] == t;
      BlocksMoved(blocks, s, s', t, blocks[t].(rqList := Some(rq.rtRq), tickToWake := 0));
    }

    // On one queue, a thread is there once.
    lemma OnceIn(t: Node)
      requires Queues() && t in state.cls
      ensures t !in Spec.Without(state.rt, t) && t !in Spec.Without(state.sleep, t)
    {
      assert rq.rtRq.Valid() && rq.sleepQ.Valid();
      Spec.WithoutDistinct(state.rt, t);
      Spec.WithoutDistinct(state.sleep, t);
    }

    // From one queue to the tail of another
    method Relist(t: Node, q: Queue)
      requires Matches() && t in state.cls && (t in state.rt || t in state.sleep || t in state.blocked)
      requires q in rq.queues
      modifies this`state, rq.queues, rq.tracked
      ensures Queues() && Scalars()
      ensures var s := old(state);
              var u := s.(rt := Spec.Without(s.rt, t), sleep := Spec.Without(s.sleep, t),
                          blocked := Spec.Without(s.blocked, t));
              && (q == rq.rtRq ==> state == u.(rt := u.rt + [t]))
              && (q == rq.blockedQ ==> state == u.(blocked := u.blocked + [t]))
    {
      hide Rq.Valid, Dlist.Valid, Agrees, Blocks, Spec.Without, Put;
      Known();
      Unlist(t);
      Puts(state, q.nodes + [t]);
      PutLast(q, t);
    }

    method RtBlock(t: Node)
      requires Matches() && t in state.cls && (t in state.rt || t in state.sleep || t in state.blocked)
      modifies this`state, this`blocks, rq.queues, rq.tracked
      ensures Matches() && state == Spec.Blocked(old(state), t)
    {
      hide Rq.Valid, Rq.Five, Dlist.Valid, Agrees, Spec.Without;
      Known();
      HeldBy(t);
      if blocks[t].rqList == Some(rq.blockedQ) {
        return;
      }
      OnceIn(t);
      BlocksBlocked(blocks, state, t);
      WithoutAbsent(state.blocked, t);
      Relist(t, rq.blockedQ);
      blocks := blocks[t := blocks[t].(rqList := Some(rq.blockedQ))];
    }

    method RtUnblock(t: Node)
      requires Matches() && t in state.cls && (t in state.rt || t in state.sleep || t in state.blocked)
      modifies this`state, this`blocks, rq.queues, rq.tracked
      ensures Matches() && state == Spec.Unblocked(old(state), t)
    {
      hide Rq.Valid, Rq.Five, Dlist.Valid, Agrees, Spec.Without;
      Known();
      HeldBy(t);
      if blocks[t].rqList != Some(rq.blockedQ) {
        return;
      }
      UnblockMove(t);
      ghost var s := state;
      blocks := blocks[t := blocks[t].(rqList := Some(rq.rtRq), tickToWake := 0)];
      state := state.(wake := state.wake[t := 0]);
    }

    method UnblockMove(t: Node)
      requires Matches() && t in state.cls && t in state.blocked && t !in state.rt && t !in state.sleep
      modifies this`state, rq.queues, rq.tracked
      ensures Queues() && Scalars()
      ensures var s := old(state); state == s.(blocked := Spec.Without(s.blocked, t), rt := s.rt + [t])
      ensures Blocks(blocks[t := blocks[t].(rqList := Some(rq.rtRq), tickToWake := 0)],
                     state.(wake := state.wake[t := 0]))
    {
      hide Rq.Valid, Rq.Five, Dlist.Valid, Agrees, Spec.Without;
      Known();
      WithoutAbsent(state.rt, t);
      WithoutAbsent(state.sleep, t);
      BlocksUnblocked(blocks, state, t);
      Relist(t, rq.rtRq);
    }

    // scheduler_block_thread and scheduler_unblock_thread, of a thread that is not running
    method ThreadBlock(t: Node)
      requires Valid() && Spec.Enabled(state, Spec.Block(t))
      modifies this, rq.queues, rq.tracked
      ensures Valid() && state == Spec.Next(old(state), Spec.Block(t))
    {
      hide Matches, Spec.Inv, Spec.Blocked;
      Spec.BlockableWhere(state, t);
      Spec.NextInv(state, Spec.Block(t));
      RtBlock(t);
    }

    method ThreadUnblock(t: Node)
      requires Valid() && Spec.Enabled(state, Spec.Unblock(t))
      modifies this, rq.queues, rq.tracked
      ensures Valid() && state == Spec.Next(old(state), Spec.Unblock(t))
    {
      hide Matches, Spec.Inv, Spec.Unblocked;
      Spec.BlockableWhere(state, t);
      Spec.NextInv(state, Spec.Unblock(t));
      RtUnblock(t);
    }

    lemma BlocksKilled(blocks: map<Node, Tcb>, s: State, t: Node)
      requires Blocks(blocks, s) && t in s.cls
      ensures Blocks(blocks[t := blocks[t].(exitPending := true)], s.(exiting := s.exiting + {t}))
    {
      BlocksMoved(blocks, s, s.(exiting := s.exiting + {t}), t, blocks[t].(exitPending := true));
    }

    // kill_thread; thread_exit does the same to the running thread
    method KillThread(t: Node)
      requires Valid() && Spec.Enabled(state, Spec.Kill(t))
      modifies this`state, this`blocks
      ensures Valid() && state == Spec.Next(old(state), Spec.Kill(t))
    {
      hide Rq.Valid, Rq.Five, Dlist.Valid, Agrees, Spec.Inv;
      Spec.NextInv(state, Spec.Kill(t));
      BlocksKilled(blocks, state, t);
      blocks := blocks[t := blocks[t].(exitPending := true)];
      state := state.(exiting := state.exiting + {t});
    }
  }
}
