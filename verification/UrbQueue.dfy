// The queue of control transfers on a USB pipe: kernel/src/drivers/usbhc.c.
//
// A URB is handled by its list node. The completion callback of a URB may submit more URBs to
// the pipe, the completed one among them; what it submits is a parameter of the step.
module UrbQueue {
  import opened CircularList

  datatype PipeState = Idle | CtrlOut | ZlpIn | ZlpOut | In | Out

  // The pipe, and the history of its URBs: submitted, started and completed, in order.
  datatype Pipe<T> = Pipe(state: PipeState, queue: seq<T>, submitted: seq<T>, started: seq<T>, completed: seq<T>)

  // What holds at all times, inside a callback too: URBs complete in the order they were
  // submitted, and only the head of the queue is in flight.
  ghost predicate InOrder<T>(p: Pipe<T>) {
    && p.submitted == p.completed + p.queue
    && (p.state != Idle ==> p.queue != [])
    && p.started == p.completed + if p.state == Idle then [] else [p.queue[0]]
  }

  // Between steps the pipe is idle exactly if its queue is empty.
  ghost predicate Inv<T>(p: Pipe<T>) { InOrder(p) && (p.state == Idle <==> p.queue == []) }

  ghost function Empty<T>(): Pipe<T> { Pipe(Idle, [], [], [], []) }

  // ---------- steps ----------

  ghost function Started<T>(p: Pipe<T>): Pipe<T>
    requires p.queue != []
  {
    p.(state := CtrlOut, started := p.started + [p.queue[0]])
  }

  ghost function Submitted<T>(p: Pipe<T>, u: T): Pipe<T> {
    var q := p.(queue := p.queue + [u], submitted := p.submitted + [u]);
    if p.queue == [] then Started(q) else q
  }

  ghost function SubmittedAll<T>(p: Pipe<T>, us: seq<T>): Pipe<T>
    decreases |us|
  {
    if us == [] then p else Submitted(SubmittedAll(p, us[..|us| - 1]), us[|us| - 1])
  }

  ghost function Retired<T>(p: Pipe<T>): Pipe<T>
    requires p.queue != []
  {
    p.(state := Idle, queue := p.queue[1..], completed := p.completed + [p.queue[0]])
  }

  // The head has ended; its callback has submitted `us`.
  ghost function Ended<T>(p: Pipe<T>, us: seq<T>): Pipe<T>
    requires p.queue != []
  {
    var q := SubmittedAll(Retired(p), us);
    if q.queue != [] && q.state == Idle then Started(q) else q
  }

  datatype Step<T> =
    | Submit(u: T)
    | SetupSent(data: bool, toHost: bool)       // the setup packet has gone out
    | ReceiveIn(short: bool, all: bool, us: seq<T>)
    | TransmitOut(us: seq<T>)

  // A pipe reports an event only while a transfer is in flight; a setup packet is sent only
  // in the first stage.
  ghost predicate Enabled<T>(p: Pipe<T>, step: Step<T>) {
    match step
    case Submit(_) => true
    case SetupSent(_, _) => p.state == CtrlOut
    case ReceiveIn(_, _, _) => p.state != Idle
    case TransmitOut(_) => p.state != Idle
  }

  function AfterSetup(data: bool, toHost: bool): PipeState { if data then (if toHost then In else Out) else ZlpIn }

  ghost function Next<T>(p: Pipe<T>, step: Step<T>): Pipe<T>
    requires Inv(p) && Enabled(p, step)
  {
    match step
    case Submit(u) => Submitted(p, u)
    case SetupSent(data, toHost) => p.(state := AfterSetup(data, toHost))
    case ReceiveIn(short, all, us) =>
      if p.state == ZlpIn then Ended(p, us)
      else if short then p.(state := ZlpOut)
      else if all then Ended(p, us)
      else p
    case TransmitOut(us) => if p.state == ZlpOut then Ended(p, us) else p
  }

  // ---------- what every step keeps ----------

  lemma SubmitInOrder<T>(p: Pipe<T>, u: T)
    requires InOrder(p)
    ensures var q := Submitted(p, u);
            && InOrder(q) && q.queue == p.queue + [u] && q.completed == p.completed && q.submitted == p.submitted + [u]
            && (p.queue == [] ==> q.state != Idle) && (p.queue != [] ==> q.state == p.state)
  {
    assert p.completed + (p.queue + [u]) == p.completed + p.queue + [u];
  }

  lemma {:induction false} SubmitAllInOrder<T>(p: Pipe<T>, us: seq<T>)
    requires InOrder(p)
    ensures var q := SubmittedAll(p, us);
            && InOrder(q) && q.queue == p.queue + us && q.completed == p.completed && q.submitted == p.submitted + us
            && (p.queue != [] ==> q.state == p.state)
            && (p.queue == [] && us != [] ==> q.state != Idle) && (us == [] ==> q.state == p.state)
    decreases |us|
  {
    hide InOrder, Submitted;
    if us == [] {
      assert p.queue + us == p.queue && p.submitted + us == p.submitted;
    } else {
      var init, u := us[..|us| - 1], us[|us| - 1];
      SubmitAllInOrder(p, init);
      SubmitInOrder(SubmittedAll(p, init), u);
      assert init + [u] == us;
      assert p.queue + us == p.queue + init + [u] && p.submitted + us == p.submitted + init + [u];
    }
  }

  // Ending the head completes it, and leaves the pipe busy exactly if there is more to do: the
  // next transfer is started once, by the callback or after it.
  lemma EndInv<T>(p: Pipe<T>, us: seq<T>)
    requires Inv(p) && p.queue != []
    ensures var q := Ended(p, us);
            && Inv(q) && q.completed == p.completed + [p.queue[0]] && q.queue == p.queue[1..] + us
            && q.submitted == p.submitted + us
  {
    RetireInOrder(p);
    SubmitAllInOrder(Retired(p), us);
  }

  lemma RetireInOrder<T>(p: Pipe<T>)
    requires Inv(p) && p.queue != []
    ensures InOrder(Retired(p))
  {
    var d := Retired(p);
    assert p.queue == [p.queue[0]] + p.queue[1..];
    assert d.submitted == d.completed + d.queue;
  }

  lemma NextInv<T>(p: Pipe<T>, step: Step<T>)
    requires Inv(p) && Enabled(p, step)
    ensures Inv(Next(p, step))
    ensures p.submitted <= Next(p, step).submitted && p.started <= Next(p, step).started
            && p.completed <= Next(p, step).completed
  {
    hide Ended;
    match step
    case Submit(u) => SubmitInOrder(p, u);
    case SetupSent(_, _) =>
    case ReceiveIn(_, _, us) => EndInv(p, us);
    case TransmitOut(us) => EndInv(p, us);
  }

  // ---------- runs ----------

  ghost predicate Goes<T>(p: Pipe<T>, step: Step<T>, q: Pipe<T>) { Inv(p) && Enabled(p, step) && q == Next(p, step) }

  ghost predicate Run<T>(trace: seq<Pipe<T>>, steps: seq<Step<T>>) {
    && |trace| == |steps| + 1 && trace[0] == Empty()
    && forall i :: 0 <= i < |steps| ==> Goes(trace[i], steps[i], trace[i + 1])
  }

  lemma {:induction false} RunInv<T>(trace: seq<Pipe<T>>, steps: seq<Step<T>>, n: nat)
    requires Run(trace, steps) && n <= |steps|
    ensures Inv(trace[n])
  {
    hide Inv, Goes;
    if n > 0 {
      RunInv(trace, steps, n - 1);
      assert Goes(trace[n - 1], steps[n - 1], trace[n]);
      GoesInv(trace[n - 1], steps[n - 1], trace[n]);
    } else {
      EmptyInv<T>();
    }
  }

  lemma EmptyInv<T>()
    ensures Inv(Empty<T>())
  {
  }

  lemma GoesInv<T>(p: Pipe<T>, step: Step<T>, q: Pipe<T>)
    requires Goes(p, step, q)
    ensures Inv(p) && Inv(q) && p.submitted <= q.submitted && p.started <= q.started && p.completed <= q.completed
  {
    NextInv(p, step);
  }

  // On every run: at most one URB is in flight and it is the head of the queue, the pipe is
  // idle exactly if the queue is empty, each submission is started once and in turn, and URBs
  // complete in the order they were submitted.
  lemma Fifo<T>(trace: seq<Pipe<T>>, steps: seq<Step<T>>, n: nat)
    requires Run(trace, steps) && n <= |steps|
    ensures var p := trace[n];
            && p.completed <= p.started <= p.submitted
            && |p.started| - |p.completed| == (if p.state == Idle then 0 else 1)
            && (p.state == Idle <==> p.queue == []) && p.submitted == p.completed + p.queue
            && (p.state != Idle ==> p.started[|p.completed|] == p.queue[0])
  {
    RunInv(trace, steps, n);
    var p := trace[n];
    if p.queue != [] { assert p.queue == [p.queue[0]] + p.queue[1..]; }
  }

  // A URB is started as soon as every URB submitted before it has completed.
  lemma StartedInTurn<T>(trace: seq<Pipe<T>>, steps: seq<Step<T>>, n: nat, k: nat)
    requires Run(trace, steps) && n <= |steps| && k < |trace[n].submitted|
    ensures |trace[n].completed| >= k <==> |trace[n].started| > k
    ensures |trace[n].started| > k ==> trace[n].started[k] == trace[n].submitted[k]
  {
    RunInv(trace, steps, n);
    Fifo(trace, steps, n);
  }

  // ---------- progress ----------

  // The events that the request at the head still owes, in the stage it is in, with submissions
  // in between: the setup packet; if data is to be read, the packets up to a short one and the
  // status packet out, or up to the full length; if there is no data, the empty packet in.
  ghost predicate Owed<T>(stage: PipeState, events: seq<Step<T>>)
    decreases |events|
  {
    && events != [] && stage != Idle
    && var e, rest := events[0], events[1..];
       if e.Submit? then Owed(stage, rest)
       else match stage
         case CtrlOut => e.SetupSent? && (e.data ==> e.toHost) && Owed(if e.data then In else ZlpIn, rest)
         case In =>
           e.ReceiveIn? && if e.short then Owed(ZlpOut, rest) else if e.all then rest == [] else Owed(In, rest)
         case ZlpOut => e.TransmitOut? && rest == []
         case ZlpIn => e.ReceiveIn? && rest == []
         case _ => false
  }

  // Which stage a request enters when its setup packet has gone out
  lemma StageAfterSetup<T>(p: Pipe<T>, q: Pipe<T>, data: bool, toHost: bool)
    requires Goes(p, Step.SetupSent(data, toHost), q)
    ensures q.queue == p.queue && q.completed == p.completed
    ensures !data ==> q.state == ZlpIn
    ensures data && toHost ==> q.state == In
    ensures data && !toHost ==> q.state == Out
  {
  }

  // What an event does that is not the last one owed, and what the last one does
  lemma OwedStep<T>(p: Pipe<T>, events: seq<Step<T>>, q: Pipe<T>)
    requires Owed(p.state, events) && Goes(p, events[0], q)
    ensures p.queue != [] && Inv(q)
    ensures |events| > 1 ==>
              Owed(q.state, events[1..]) && q.completed == p.completed && q.queue != [] && q.queue[0] == p.queue[0]
    ensures |events| == 1 ==>
              && q.completed == p.completed + [p.queue[0]]
              && q.state == if q.queue == [] then Idle else CtrlOut
  {
    hide Ended;
    match events[0]
    case Submit(u) => SubmitInOrder(p, u);
    case SetupSent(_, _) =>
    case ReceiveIn(_, _, us) => EndInv(p, us); EndStage(p, us);
    case TransmitOut(us) => EndInv(p, us); EndStage(p, us);
  }

  // After the end of a URB the next one is in its first stage.
  lemma EndStage<T>(p: Pipe<T>, us: seq<T>)
    requires Inv(p) && p.queue != []
    ensures var q := Ended(p, us); q.state == if q.queue == [] then Idle else CtrlOut
  {
    hide InOrder, Submitted;
    RetireInOrder(p);
    SubmitAllInOrder(Retired(p), us);
    StagesSubmitted(Retired(p), us);
  }

  lemma {:induction false} StagesSubmitted<T>(p: Pipe<T>, us: seq<T>)
    requires p.state == Idle
    ensures SubmittedAll(p, us).state == Idle || SubmittedAll(p, us).state == CtrlOut
    decreases |us|
  {
    if us != [] { StagesSubmitted(p, us[..|us| - 1]); }
  }

  // Every request makes progress: in every state of a run, the events that the head owes complete
  // that URB and no other, and then the next one is in its first stage.
  lemma {:induction false} Completes<T>(trace: seq<Pipe<T>>, steps: seq<Step<T>>, i: nat, n: nat)
    requires Run(trace, steps) && i < n <= |steps| && Owed(trace[i].state, steps[i..n])
    ensures trace[i].queue != [] && trace[n].completed == trace[i].completed + [trace[i].queue[0]]
    ensures forall k :: i <= k < n ==> trace[k].completed == trace[i].completed
    ensures trace[n].state == if trace[n].queue == [] then Idle else CtrlOut
    decreases n - i
  {
    hide Goes, Owed, Inv;
    var events := steps[i..n];
    assert events[0] == steps[i] && events[1..] == steps[i + 1..n];
    assert Goes(trace[i], steps[i], trace[i + 1]);
    OwedStep(trace[i], events, trace[i + 1]);
    if i + 1 < n { Completes(trace, steps, i + 1, n); }
  }

  // In every stage but one there are such events, so nothing blocks the pipe for ever.
  lemma SomeOwed<T>(stage: PipeState) returns (events: seq<Step<T>>)
    requires stage != Idle && stage != Out
    ensures Owed(stage, events)
  {
    var last := [Step.TransmitOut([])];
    assert Owed(ZlpOut, last);
    var status := [Step.ReceiveIn(true, false, [])];
    assert status[1..] == [] && Owed<T>(ZlpIn, status);
    events := match stage
      case CtrlOut => [Step.SetupSent(false, false)] + status
      case In => status + last
      case ZlpOut => last
      case ZlpIn => status
      case _ => [];
    assert (status + last)[1..] == last && ([Step.SetupSent(false, false)] + status)[1..] == status;
  }

  // Writing data is not implemented: no packet that goes out takes a request from the stage Out,
  // whatever is submitted besides, and everything behind it in the queue waits.
  lemma {:induction false} WriteStays<T>(trace: seq<Pipe<T>>, steps: seq<Step<T>>, i: nat, n: nat)
    requires Run(trace, steps) && i <= n <= |steps| && trace[i].state == Out
    requires forall k :: i <= k < n ==> steps[k].Submit? || steps[k].TransmitOut?
    ensures trace[n].state == Out && trace[n].completed == trace[i].completed && trace[n].started == trace[i].started
  {
    if i < n {
      WriteStays(trace, steps, i, n - 1);
      assert Goes(trace[n - 1], steps[n - 1], trace[n]);
      WriteStep(trace[n - 1], steps[n - 1], trace[n]);
    }
  }

  // A run that gets there: one request that writes, with another behind it
  lemma WriteReached<T>(u: T, v: T) returns (trace: seq<Pipe<T>>, steps: seq<Step<T>>)
    ensures Run(trace, steps) && steps == [Step.Submit(u), Step.Submit(v), Step.SetupSent(true, false)]
    ensures trace[3].state == Out && trace[3].queue == [u, v] && trace[3].completed == []
  {
    var p1 := Pipe(CtrlOut, [u], [u], [u], []);
    var p2 := Pipe(CtrlOut, [u, v], [u, v], [u], []);
    trace := [Empty(), p1, p2, p2.(state := Out)];
    steps := [Step.Submit(u), Step.Submit(v), Step.SetupSent(true, false)];
    assert Goes(trace[0], steps[0], trace[1]) && Goes(trace[1], steps[1], trace[2]);
    assert Goes(trace[2], steps[2], trace[3]);
  }

  lemma WriteStep<T>(p: Pipe<T>, step: Step<T>, q: Pipe<T>)
    requires Goes(p, step, q) && p.state == Out && (step.Submit? || step.TransmitOut?)
    ensures q.state == Out && q.completed == p.completed && q.started == p.started
  {
  }

  // ---------- the code ----------

  class UsbPipe {
    var state: PipeState
    const urbList: List
    ghost var submitted: seq<ListNode>
    ghost var started: seq<ListNode>
    ghost var completed: seq<ListNode>

    constructor (urbList: List)
      requires urbList.Valid() && urbList.nodes == []
      ensures Valid() && View() == Empty() && this.urbList == urbList
    {
      this.urbList, state := urbList, Idle;
      submitted, started, completed := [], [], [];
    }

    ghost function View(): Pipe<ListNode>
      reads this, urbList
    {
      Pipe(state, urbList.nodes, submitted, started, completed)
    }

    // Holds inside a callback too.
    ghost predicate Sound()
      reads this, urbList, urbList.head, urbList.nodes
    {
      urbList.Valid() && InOrder(View())
    }

    ghost predicate Valid()
      reads this, urbList, urbList.head, urbList.nodes
    {
      Sound() && Inv(View())
    }

    // usbhc_start_urb, for a control transfer
    method StartUrb(urb: ListNode)
      requires urbList.nodes != [] && urb == urbList.nodes[0]
      modifies this
      ensures View() == Started(old(View()))
    {
      state := CtrlOut;
      started := started + [urb];
    }

    // usbhc_submit_urb
    method SubmitUrb(urb: ListNode)
      requires Sound() && urb.Free()
      modifies this, urbList, urbList.head, urbList.nodes, urb
      ensures Sound() && View() == Submitted(old(View()), urb) && urbList.nodes == old(urbList.nodes) + [urb]
    {
      hide List.Linked;
      SubmitInOrder(View(), urb);
      urbList.EmptyTest();
      var urbStart := urbList.IsEmpty();
      urbList.AddLast(urb);
      submitted := submitted + [urb];
      if urbStart {
        StartUrb(urb);
      }
    }

    // The completion callback, which submits `us` in order
    method Callback(us: seq<ListNode>)
      requires Sound() && forall i :: 0 <= i < |us| ==> us[i].Free()
      requires forall i, j :: 0 <= i < j < |us| ==> us[i] != us[j]
      modifies this, urbList, urbList.head, urbList.nodes, us
      ensures Sound() && View() == SubmittedAll(old(View()), us) && urbList.nodes == old(urbList.nodes) + us
    {
      hide List.Linked, InOrder, Submitted;
      ghost var p := View();
      for i := 0 to |us|
        invariant Sound() && View() == SubmittedAll(p, us[..i]) && urbList.nodes == p.queue + us[..i]
        invariant forall j :: i <= j < |us| ==> us[j].Free()
      {
        assert us[..i + 1] == us[..i] + [us[i]];
        SubmitUrb(us[i]);
      }
      assert us[..|us|] == us;
    }

    // The ended URB leaves the queue before its callback runs.
    method Retire(urb: ListNode, us: seq<ListNode>)
      requires Valid() && urbList.nodes != [] && urb == urbList.nodes[0]
      requires forall i :: 0 <= i < |us| ==> us[i] == urb || us[i].Free()
      modifies this, urbList, urbList.head, urbList.nodes
      ensures Sound() && View() == Retired(old(View())) && urbList.nodes == old(urbList.nodes)[1..]
      ensures forall i :: 0 <= i < |us| ==> us[i].Free()
    {
      hide List.Linked;
      RetireInOrder(View());
      state := Idle;
      urbList.DeleteNode(urb, 0);
      completed := completed + [urb];
    }

    // The next URB is started, unless the callback has done that or there is none.
    method StartNext()
      requires Sound()
      modifies this
      ensures View() == var p := old(View()); if p.queue != [] && p.state == Idle then Started(p) else p
      ensures urbList.Valid()
    {
      hide List.Linked, InOrder;
      urbList.EmptyTest();
      if !urbList.IsEmpty() && state == Idle {
        StartUrb(urbList.head.next);
      }
    }

    // usbhc_end_urb, of the URB at the head. The callback may submit the ended URB again.
    method EndUrb(urb: ListNode, us: seq<ListNode>)
      requires Valid() && urbList.nodes != [] && urb == urbList.nodes[0]
      requires forall i :: 0 <= i < |us| ==> us[i] == urb || us[i].Free()
      requires forall i, j :: 0 <= i < j < |us| ==> us[i] != us[j]
      modifies this, urbList, urbList.head, urbList.nodes, us
      ensures Valid() && View() == Ended(old(View()), us)
    {
      hide List.Valid, InOrder, Submitted, SubmittedAll, Retired;
      EndInv(View(), us);
      Retire(urb, us);
      Callback(us);
      StartNext();
    }

    // usbhc_pipe_setup_sent; in another state the source panics
    method PipeSetupSent(data: bool, toHost: bool)
      requires Valid() && state == CtrlOut
      modifies this`state
      ensures Valid() && View() == Next(old(View()), SetupSent(data, toHost))
    {
      if data {
        if toHost {
          state := In;
        } else {
          state := Out;
        }
      } else {
        state := ZlpIn;
      }
    }

    // usbhc_pipe_receive_in: `short` says that the packet was short, `all` that the transfer
    // has its full length
    method PipeReceiveIn(short: bool, all: bool, us: seq<ListNode>)
      requires Valid() && state != Idle
      requires forall i :: 0 <= i < |us| ==> us[i] == urbList.nodes[0] || us[i].Free()
      requires forall i, j :: 0 <= i < j < |us| ==> us[i] != us[j]
      modifies this, urbList, urbList.head, urbList.nodes, us
      ensures Valid() && View() == Next(old(View()), ReceiveIn(short, all, us))
    {
      hide List.Linked, Ended;
      urbList.EmptyTest();
      var urb := urbList.head.next;
      if state == ZlpIn {
        EndUrb(urb, us);
      } else if short {
        state := ZlpOut;
      } else if all {
        EndUrb(urb, us);
      }
    }

    // usbhc_transmit_out
    method PipeTransmitOut(us: seq<ListNode>)
      requires Valid() && state != Idle
      requires forall i :: 0 <= i < |us| ==> us[i] == urbList.nodes[0] || us[i].Free()
      requires forall i, j :: 0 <= i < j < |us| ==> us[i] != us[j]
      modifies this, urbList, urbList.head, urbList.nodes, us
      ensures Valid() && View() == Next(old(View()), TransmitOut(us))
    {
      hide List.Linked, Ended;
      urbList.EmptyTest();
      if state == ZlpOut {
        EndUrb(urbList.head.next, us);
      }
    }
  }
}
