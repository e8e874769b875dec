// What the scheduler guarantees over runs: priorities, latency, wake-ups, exits.
module SchedRuns {
  import opened Options
  import opened SchedSpec

  ghost predicate Goes<T>(s: Sched<T>, step: Step<T>, s': Sched<T>) {
    Enabled(s, step) && s' == Next(s, step)
  }

  // A run: the states it passes through, one more than its steps.
  ghost predicate Run<T>(trace: seq<Sched<T>>, steps: seq<Step<T>>) {
    |trace| == |steps| + 1 && forall i :: 0 <= i < |steps| ==> Goes(trace[i], steps[i], trace[i + 1])
  }

  // How many of the steps from `a` up to `b` are ticks.
  ghost function Ticks<T>(steps: seq<Step<T>>, a: nat, b: nat): nat
    requires b <= |steps|
  {
    if b <= a then 0 else Ticks(steps, a, b - 1) + if steps[b - 1].Systick? then 1 else 0
  }

  // In every state of every run from an orderly state each live thread is in exactly one place.
  lemma {:induction false} RunInv<T>(trace: seq<Sched<T>>, steps: seq<Step<T>>, n: nat)
    requires Run(trace, steps) && Inv(trace[0]) && n <= |steps|
    ensures Inv(trace[n])
  {
    hide Inv, Goes;
    if n > 0 {
      RunInv(trace, steps, n - 1);
      RunGoes(trace, steps, n - 1);
      GoesInv(trace[n - 1], steps[n - 1], trace[n]);
    }
  }

  lemma RunGoes<T>(trace: seq<Sched<T>>, steps: seq<Step<T>>, i: nat)
    requires Run(trace, steps) && i < |steps|
    ensures Goes(trace[i], steps[i], trace[i + 1])
  {
  }

  lemma GoesInv<T>(s: Sched<T>, step: Step<T>, s': Sched<T>)
    requires Inv(s) && Goes(s, step, s')
    ensures Inv(s')
  {
    NextInv(s, step);
  }

  lemma StartInv<T>()
    ensures Inv(SchedSpec.Start<T>())
  {
  }

  ghost predicate InQueue<T>(s: Sched<T>, t: T) {
    t in s.rt || t in s.app || t in s.bg || t in s.sleep || t in s.blocked
  }

  // The place of a thread, spelled out: a queue of its class, asleep, blocked, running, or
  // idle, and no two of them unless it is on its way to sleep.
  lemma OnePlace<T>(s: Sched<T>, t: T)
    requires Inv(s) && t in s.cls
    ensures InQueue(s, t) || s.curr == Some(t) || s.idle == Some(t)
    ensures t in s.rt ==> t !in s.app && t !in s.bg && t !in s.sleep && t !in s.blocked && s.curr != Some(t)
    ensures t in s.app ==> t !in s.bg && t !in s.sleep && t !in s.blocked && s.curr != Some(t)
    ensures t in s.bg ==> t !in s.sleep && t !in s.blocked && s.curr != Some(t)
    ensures t in s.blocked ==> t !in s.sleep && s.curr != Some(t)
    ensures t in s.sleep && s.curr == Some(t) ==> WakeOf(s.wake, t) >= s.tick + RVR
    ensures s.idle == Some(t) ==> !InQueue(s, t)
  {
    assert Times(s, t) == if t in Loose(s) then 0 else 1;
    TimesIn(s, t);
  }

  // ---------- priority ----------

  // No thread of a lower class is picked while a higher class has one ready.
  lemma PickPriority<T>(s: Sched<T>, cvr: nat)
    requires Inv(s) && Enabled(s, Step.Systick(cvr))
    ensures var r, n := Rescheduled(s, cvr), Next(s, Step.Systick(cvr));
            && n.curr.Some? && n.curr.value in n.cls
            && (n.cls[n.curr.value] == RealTime <==> r.rt != [])
            && (n.cls[n.curr.value] == Application <==> r.rt == [] && r.app != [])
            && (n.cls[n.curr.value] == Background <==> r.rt == [] && r.app == [] && r.bg != [])
            && (n.cls[n.curr.value] == Idle <==> r.rt == [] && r.app == [] && r.bg == [])
  {
    hide Rescheduled, Times, Timed, Placed, Loose, WakeOf;
    SystickInv(s, cvr);
    var r := Rescheduled(s, cvr);
    assert r.rt != [] ==> r.rt[0] in r.rt;
    assert r.app != [] ==> r.app[0] in r.app;
    assert r.bg != [] ==> r.bg[0] in r.bg;
  }

  // ---------- real-time latency ----------

  lemma WithoutIndex<T>(q: seq<T>, c: T, k: nat) returns (k': nat)
    requires k < |q| && q[k] != c
    ensures k' <= k && k' < |Without(q, c)| && Without(q, c)[k'] == q[k]
    ensures c !in q[..k] ==> k' == k
  {
    hide IndexOf;
    k' := k;
    if c in q && IndexOf(q, c) < k { k' := k - 1; }
  }

  lemma EnqueuePrefix<T>(s: Sched<T>, t: T)
    ensures s.rt <= Enqueue(s, t).rt
  {
  }

  lemma ExpirePrefix<T>(s: Sched<T>)
    ensures s.rt <= Expire(s).rt
  {
    if HeadExpired(s) { EnqueuePrefix(s.(sleep := s.sleep[1..]), s.sleep[0]); }
  }

  lemma ExpireSleep<T>(s: Sched<T>)
    ensures Expire(s).sleep == if HeadExpired(s) then s.sleep[1..] else s.sleep
    ensures Expire(s).tick == s.tick && Expire(s).curr == s.curr && Expire(s).exiting == s.exiting
    ensures Expire(s).cls == s.cls
    ensures forall u :: u in s.wake ==>
              WakeOf(Expire(s).wake, u) == if HeadExpired(s) && u == s.sleep[0] then 0 else WakeOf(s.wake, u)
  {
    if HeadExpired(s) { EnqueueKeeps(s.(sleep := s.sleep[1..]), s.sleep[0]); }
  }

  lemma RequeueKeeps<T>(s: Sched<T>)
    requires s.curr.Some?
    ensures var r := Requeue(s);
            && r.sleep == s.sleep && r.wake == s.wake && r.curr == s.curr && r.cls == s.cls && r.tick == s.tick
            && r.exiting == s.exiting && s.rt <= r.rt
  {
    EnqueueKeeps(s, s.curr.value);
    EnqueuePrefix(s, s.curr.value);
  }

  lemma RtSystick<T>(s: Sched<T>, cvr: nat, t: T, k: nat)
    requires Inv(s) && Enabled(s, Step.Systick(cvr)) && k < |s.rt| && s.rt[k] == t
    ensures var n := Next(s, Step.Systick(cvr));
            if k == 0 then n.curr == Some(t) else k - 1 < |n.rt| && n.rt[k - 1] == t
  {
    var c := s.curr.value;
    var e := Expire(Advanced(s, cvr));
    ExpirePrefix(Advanced(s, cvr));
    ExpireSleep(Advanced(s, cvr));
    RequeueKeeps(e);
    RtNotCurr(s, k);
    ReapRt(Requeue(e), k, t);
    PickRt(Rescheduled(s, cvr), k);
  }

  lemma ReapRt<T>(s: Sched<T>, k: nat, t: T)
    requires s.curr.Some? && k < |s.rt| && s.rt[k] == t && t != s.curr.value && s.curr.value !in s.rt[..k]
    ensures k < |Reap(s).rt| && Reap(s).rt[k] == t
  {
    var k' := WithoutIndex(s.rt, s.curr.value, k);
  }

  lemma PickRt<T>(s: Sched<T>, k: nat)
    requires k < |s.rt|
    ensures if k == 0 then Pick(s).curr == Some(s.rt[0]) else k - 1 < |Pick(s).rt| && Pick(s).rt[k - 1] == s.rt[k]
  {
  }

  // The running thread is not ahead of a thread on the real-time queue, nor that thread.
  lemma RtNotCurr<T>(s: Sched<T>, k: nat)
    requires Inv(s) && s.curr.Some? && k < |s.rt|
    ensures s.rt[k] != s.curr.value && s.curr.value !in s.rt[..k]
  {
    assert s.rt[k] in s.rt;
    OnePlace(s, s.curr.value);
  }

  // One step brings a ready real-time thread no further from running, and a tick brings it closer.
  lemma RtAdvance<T>(s: Sched<T>, step: Step<T>, t: T, k: nat) returns (k': nat)
    requires Inv(s) && Enabled(s, step) && k < |s.rt| && s.rt[k] == t && step != Step.Block(t)
    ensures var n := Next(s, step);
            n.curr == Some(t) || (k' < |n.rt| && n.rt[k'] == t && k' <= if step.Systick? then k - 1 else k)
  {
    hide Enqueue, IndexOf, Without, WakeOf, Inv, Created, Expire, Reap, Requeue;
    k' := k;
    match step
    case Boot(idle) =>
      RtCreated(s, idle, Idle);
      PickRt(Created(s, idle, Idle).(alarm := 0), k);
      if k > 0 { k' := k - 1; }
    case New(u, c) => RtCreated(s, u, c);
    case Systick(cvr) => RtSystick(s, cvr, t, k); if k > 0 { k' := k - 1; }
    case Sleep(ms) =>
    case Block(u) => k' := RtBlocked(s, u, k);
    case Unblock(u) => RtUnblocked(s, u);
    case Kill(u) =>
  }

  lemma RtCreated<T>(s: Sched<T>, t: T, c: Class)
    ensures s.rt <= Created(s, t, c).rt
  {
  }

  lemma RtUnblocked<T>(s: Sched<T>, t: T)
    ensures s.rt <= Unblocked(s, t).rt
  {
  }

  lemma RtBlocked<T>(s: Sched<T>, u: T, k: nat) returns (k': nat)
    requires k < |s.rt| && s.rt[k] != u
    ensures k' <= k && k' < |Blocked(s, u).rt| && Blocked(s, u).rt[k'] == s.rt[k]
  {
    k' := k;
    if u !in s.blocked { k' := WithoutIndex(s.rt, u, k); }
  }

  // Something that waits at a distance k, comes no further away in any step, comes closer with
  // every tick, and is done when it cannot come closer, is done after at most k + 1 ticks.
  lemma Countdown<T>(steps: seq<Step<T>>, from: nat, k: nat, waits: (nat, nat) -> bool, done: nat -> bool)
    returns (n: nat)
    requires from <= |steps| && waits(from, k) && Ticks(steps, from, |steps|) > k
    requires Approaches(steps, from, waits, done)
    ensures from <= n <= |steps| && Ticks(steps, from, n) <= k + 1 && done(n)
  {
    n := from;
    var j: nat := k;
    while n < |steps|
      invariant from <= n <= |steps| && waits(n, j) && j + Ticks(steps, from, n) <= k
    {
      n := n + 1;
      if done(n) { return; }
      var bound := if steps[n - 1].Systick? then j - 1 else j;
      assert Closer(waits, n, bound);
      j :| waits(n, j) && j <= bound;
    }
  }

  ghost predicate Closer(waits: (nat, nat) -> bool, i: nat, bound: int) {
    exists j: nat :: waits(i, j) && j <= bound
  }

  ghost predicate Approaches<T>(steps: seq<Step<T>>, from: nat, waits: (nat, nat) -> bool, done: nat -> bool) {
    forall i: nat, j: nat :: from <= i < |steps| && waits(i, j) ==>
      done(i + 1) || Closer(waits, i + 1, if steps[i].Systick? then j - 1 else j)
  }

  ghost predicate RtAt<T>(trace: seq<Sched<T>>, t: T, i: nat, k: nat) {
    i < |trace| && k < |trace[i].rt| && trace[i].rt[k] == t
  }

  ghost predicate RunsAt<T>(trace: seq<Sched<T>>, t: T, i: nat) {
    i < |trace| && trace[i].curr == Some(t)
  }

  ghost function RtWaits<T>(trace: seq<Sched<T>>, t: T): (nat, nat) -> bool {
    (i: nat, k: nat) => RtAt(trace, t, i, k)
  }

  ghost function Runs<T>(trace: seq<Sched<T>>, t: T): nat -> bool {
    (i: nat) => RunsAt(trace, t, i)
  }

  lemma RtGoes<T>(s: Sched<T>, step: Step<T>, s': Sched<T>, t: T, k: nat) returns (k': nat)
    requires Inv(s) && Goes(s, step, s') && k < |s.rt| && s.rt[k] == t && step != Step.Block(t)
    ensures s'.curr == Some(t) || (k' < |s'.rt| && s'.rt[k'] == t && k' <= if step.Systick? then k - 1 else k)
  {
    k' := RtAdvance(s, step, t, k);
  }

  lemma RtCloser<T>(trace: seq<Sched<T>>, steps: seq<Step<T>>, t: T, i: nat, k: nat)
    requires Run(trace, steps) && Inv(trace[0]) && i < |steps| && RtAt(trace, t, i, k) && steps[i] != Step.Block(t)
    ensures RunsAt(trace, t, i + 1) || Closer(RtWaits(trace, t), i + 1, if steps[i].Systick? then k - 1 else k)
  {
    hide Inv, Goes;
    RunInv(trace, steps, i);
    RunGoes(trace, steps, i);
    var k' := RtGoes(trace[i], steps[i], trace[i + 1], t, k);
    assert RtAt(trace, t, i + 1, k') == RtWaits(trace, t)(i + 1, k');
  }

  lemma RtApproaches<T>(trace: seq<Sched<T>>, steps: seq<Step<T>>, t: T, from: nat)
    requires Run(trace, steps) && Inv(trace[0])
    requires forall i :: from <= i < |steps| ==> steps[i] != Step.Block(t)
    ensures Approaches(steps, from, RtWaits(trace, t), Runs(trace, t))
  {
    hide Inv, Goes;
    forall i: nat, j: nat | from <= i < |steps| && RtWaits(trace, t)(i, j)
      ensures Runs(trace, t)(i + 1) || Closer(RtWaits(trace, t), i + 1, if steps[i].Systick? then j - 1 else j)
    {
      RtCloser(trace, steps, t, i, j);
    }
  }

  // A ready real-time thread at index k that nobody blocks runs after at most k + 1 ticks,
  // whatever else happens.
  lemma RtLatency<T>(trace: seq<Sched<T>>, steps: seq<Step<T>>, t: T, from: nat, k: nat) returns (n: nat)
    requires Run(trace, steps) && Inv(trace[0]) && from <= |steps| && RtAt(trace, t, from, k)
    requires forall i :: from <= i < |steps| ==> steps[i] != Step.Block(t)
    requires Ticks(steps, from, |steps|) > k
    ensures from <= n <= |steps| && Ticks(steps, from, n) <= k + 1 && RunsAt(trace, t, n)
  {
    hide Inv, Goes;
    RtApproaches(trace, steps, t, from);
    n := Countdown(steps, from, k, RtWaits(trace, t), Runs(trace, t));
  }

  // ---------- sleeping and waking ----------

  // What a tick does to the sleep queue: it loses at most its head, and that only when the
  // head's time has passed, and the running thread if it exits.
  lemma SystickSleep<T>(s: Sched<T>, cvr: nat)
    requires Inv(s) && Enabled(s, Step.Systick(cvr))
    ensures var a, n := Advanced(s, cvr), Next(s, Step.Systick(cvr));
            var q := if HeadExpired(a) then s.sleep[1..] else s.sleep;
            && n.sleep == (if s.curr.value in s.exiting then Without(q, s.curr.value) else q)
            && n.tick == a.tick
  {
    ExpireSleep(Advanced(s, cvr));
    RequeueKeeps(Expire(Advanced(s, cvr)));
    ReapSleep(Requeue(Expire(Advanced(s, cvr))));
    PickKeeps(Rescheduled(s, cvr));
  }

  lemma ReapSleep<T>(s: Sched<T>)
    requires s.curr.Some?
    ensures Reap(s).tick == s.tick
    ensures Reap(s).sleep == if s.curr.value in s.exiting then Without(s.sleep, s.curr.value) else s.sleep
    ensures Pick(Reap(s)).tick == s.tick
  {
  }

  // No sleeper is woken by the delay queue before its time, and none before one that is due
  // earlier.
  lemma NotWokenEarly<T>(s: Sched<T>, cvr: nat, t: T)
    requires Inv(s) && Enabled(s, Step.Systick(cvr)) && t in s.sleep
    requires t !in Next(s, Step.Systick(cvr)).sleep && t in Next(s, Step.Systick(cvr)).cls
    ensures t == s.sleep[0] && WakeOf(s.wake, t) < Next(s, Step.Systick(cvr)).tick
    ensures forall u :: u in Next(s, Step.Systick(cvr)).sleep ==> WakeOf(s.wake, t) <= WakeOf(s.wake, u)
  {
    SystickSleep(s, cvr);
    ExitGone(s, cvr);
    LeftSleep(s.sleep, HeadExpired(Advanced(s, cvr)), s.curr.value, s.curr.value in s.exiting, t);
    var q := if HeadExpired(Advanced(s, cvr)) then s.sleep[1..] else s.sleep;
    WithoutMembers(q, s.curr.value);
    HeadEarliest(s.sleep, s.wake);
  }

  lemma HeadEarliest<T>(q: seq<T>, wake: map<T, nat>)
    requires Sorted(q, wake) && q != []
    ensures forall u :: u in q[1..] ==> WakeOf(wake, q[0]) <= WakeOf(wake, u)
  {
    forall u | u in q[1..]
      ensures WakeOf(wake, q[0]) <= WakeOf(wake, u)
    {
      var i :| 0 <= i < |q[1..]| && q[1..][i] == u;
      assert q[i + 1] == u;
    }
  }

  lemma LeftSleep<T>(q: seq<T>, expired: bool, c: T, exits: bool, t: T)
    requires t in q && !(exits && t == c)
    requires expired ==> q != []
    requires var r := if expired then q[1..] else q; t !in if exits then Without(r, c) else r
    ensures expired && t == q[0]
  {
    var r := if expired then q[1..] else q;
    WithoutMembers(r, c);
    if expired { assert q == [q[0]] + q[1..]; }
  }

  lemma ExitGone<T>(s: Sched<T>, cvr: nat)
    requires Inv(s) && Enabled(s, Step.Systick(cvr)) && s.curr.Some?
    ensures s.curr.value in s.exiting ==> s.curr.value !in Next(s, Step.Systick(cvr)).cls
  {
    var a := Advanced(s, cvr);
    assert forall u :: u in a.sleep ==> u in a.cls && a.cls[u] != Idle;
    ExpireKeeps(a);
    EnqueueKeeps(Expire(a), s.curr.value);
    PickKeeps(Rescheduled(s, cvr));
  }

  // A thread that is ready: on the run queue of its class, or running.
  ghost predicate Ready<T>(s: Sched<T>, t: T) {
    t in s.cls && WakeOf(s.wake, t) == 0 && (t in s.rt || t in s.app || t in s.bg || s.curr == Some(t))
  }

  lemma AwakeReady<T>(s: Sched<T>, t: T)
    requires Inv(s) && t in s.cls && WakeOf(s.wake, t) == 0 && t !in s.blocked && s.idle != Some(t)
    ensures Ready(s, t)
  {
    assert t !in s.sleep;
    OnePlace(s, t);
  }

  // A tick that finds the head of the sleep queue expired makes it ready.
  lemma HeadWakes<T>(s: Sched<T>, cvr: nat)
    requires Inv(s) && Enabled(s, Step.Systick(cvr)) && s.sleep != []
    requires WakeOf(s.wake, s.sleep[0]) < s.tick
    ensures s.sleep[0] !in Next(s, Step.Systick(cvr)).sleep && Ready(Next(s, Step.Systick(cvr)), s.sleep[0])
  {
    var t, n := s.sleep[0], Next(s, Step.Systick(cvr));
    assert t in s.sleep;
    OnePlace(s, t);
    NextInv(s, Step.Systick(cvr));
    HeadWakesState(s, cvr);
    AwakeReady(n, t);
  }

  lemma HeadWakesState<T>(s: Sched<T>, cvr: nat)
    requires Inv(s) && Enabled(s, Step.Systick(cvr)) && s.sleep != []
    requires WakeOf(s.wake, s.sleep[0]) < s.tick
    ensures var t, n := s.sleep[0], Next(s, Step.Systick(cvr));
            t !in n.sleep && t in n.cls && WakeOf(n.wake, t) == 0 && t !in n.blocked && n.idle != Some(t)
  {
    var t, a, c := s.sleep[0], Advanced(s, cvr), s.curr.value;
    assert t in s.sleep && c != t;
    assert HeadExpired(a);
    ExpireSleep(a);
    assert WakeOf(Expire(a).wake, t) == 0;
    RequeueKeeps(Expire(a));
    ReapKeeps(Requeue(Expire(a)), t);
    PickKeeps(Rescheduled(s, cvr));
    HeadOnce(s, Loose(s));
    OnePlace(s, t);
    SystickSleep(s, cvr);
    WithoutMembers(s.sleep[1..], c);
    TickElsewhere(s, cvr);
  }

  lemma ReapKeeps<T>(s: Sched<T>, t: T)
    requires s.curr.Some? && t != s.curr.value
    ensures t in s.cls ==> t in Reap(s).cls && Reap(s).cls[t] == s.cls[t]
    ensures WakeOf(Reap(s).wake, t) == WakeOf(s.wake, t)
  {
  }

  lemma TickElsewhere<T>(s: Sched<T>, cvr: nat)
    requires Inv(s) && Enabled(s, Step.Systick(cvr))
    ensures Next(s, Step.Systick(cvr)).blocked == s.blocked && Next(s, Step.Systick(cvr)).idle == s.idle
  {
    TickBlocked(s, cvr);
    TickIdle(s, cvr);
  }

  lemma TickBlocked<T>(s: Sched<T>, cvr: nat)
    requires s.curr.Some?
    ensures Pick(Rescheduled(s, cvr)).blocked == s.blocked
  {
    hide WakeOf, Enqueue, Without, IndexOf;
    var a := Advanced(s, cvr);
    if HeadExpired(a) { EnqueueKeeps(a.(sleep := a.sleep[1..]), a.sleep[0]); }
    EnqueueKeeps(Expire(a), s.curr.value);
  }

  lemma TickIdle<T>(s: Sched<T>, cvr: nat)
    requires Tables(s) && Classed(s) && s.curr.Some?
    ensures Pick(Rescheduled(s, cvr)).idle == s.idle
  {
    var a := Advanced(s, cvr);
    WakeIdle(a);
    ExpireSleep(a);
    RequeueIdle(Expire(a));
    ReapPickIdle(Requeue(Expire(a)));
  }

  lemma ReapPickIdle<T>(s: Sched<T>)
    requires s.curr.Some?
    ensures Pick(Reap(s)).idle == s.idle
  {
  }

  lemma WakeIdle<T>(s: Sched<T>)
    requires Classed(s)
    ensures Expire(s).idle == s.idle
  {
    if HeadExpired(s) {
      assert s.sleep[0] in s.sleep;
      EnqueueKeeps(s.(sleep := s.sleep[1..]), s.sleep[0]);
    }
  }

  lemma RequeueIdle<T>(s: Sched<T>)
    requires s.curr.Some? && s.curr.value in s.cls && (s.cls[s.curr.value] == Idle ==> s.idle == s.curr)
    ensures Requeue(s).idle == s.idle
  {
  }

  // One step brings an expired sleeper no further from waking, and a tick brings it closer.
  lemma SleepAdvance<T>(s: Sched<T>, step: Step<T>, t: T, i: nat) returns (i': nat)
    requires Inv(s) && Enabled(s, step) && i < |s.sleep| && s.sleep[i] == t && WakeOf(s.wake, t) < s.tick
    requires step != Step.Block(t)
    ensures var n := Next(s, step);
            if step.Systick? && i == 0 then t !in n.sleep && Ready(n, t)
            else i' < |n.sleep| && n.sleep[i'] == t && WakeOf(n.wake, t) < n.tick
                 && i' <= if step.Systick? then i - 1 else i
  {
    hide Classed, Occ, Placed, IndexOf, Without, Enqueue, SleepPos, Created, Expire, Reap, Requeue, Times, Loose,
         Pick, Slept;
    i' := i;
    assert t in s.sleep;
    OnePlace(s, t);
    match step
    case Boot(idle) =>
    case New(u, c) => CreatedKeeps(s, u, c);
    case Systick(cvr) =>
      if i == 0 {
        HeadWakes(s, cvr);
      } else {
        i' := SleepTick(s, cvr, t, i);
      }
    case Sleep(ms) => SleptPlace(s, ms, i);
    case Block(u) => if u !in s.blocked { i' := WithoutIndex(s.sleep, u, i); }
    case Unblock(u) => if u in s.blocked { OnePlace(s, u); }
    case Kill(u) =>
  }

  lemma SleptPlace<T>(s: Sched<T>, ms: nat, i: nat)
    requires Inv(s) && Enabled(s, Step.Sleep(ms)) && i < |s.sleep| && WakeOf(s.wake, s.sleep[i]) < s.tick
    ensures var n := Slept(s, ms);
            i < |n.sleep| && n.sleep[i] == s.sleep[i] && n.tick == s.tick
              && WakeOf(n.wake, s.sleep[i]) == WakeOf(s.wake, s.sleep[i])
  {
    hide SleepPos, Alarm;
    SleptAfter(s, ms, i);
    SleptMembers(s, ms);
    assert s.sleep[i] in s.sleep;
  }

  lemma SleptAfter<T>(s: Sched<T>, ms: nat, i: nat)
    requires Inv(s) && Enabled(s, Step.Sleep(ms)) && i < |s.sleep| && WakeOf(s.wake, s.sleep[i]) < s.tick
    ensures SleepPos(s.sleep, Slept(s, ms).wake, s.tick + ms * RVR) > i
  {
    SleptMembers(s, ms);
    assert s.curr.value !in s.sleep;
    forall j | 0 <= j <= i
      ensures WakeOf(Slept(s, ms).wake, s.sleep[j]) <= s.tick + ms * RVR
    {
      assert s.sleep[j] in s.sleep;
    }
  }

  lemma SleepTick<T>(s: Sched<T>, cvr: nat, t: T, i: nat) returns (i': nat)
    requires Inv(s) && Enabled(s, Step.Systick(cvr)) && 0 < i < |s.sleep| && s.sleep[i] == t
    requires WakeOf(s.wake, t) < s.tick
    ensures var n := Next(s, Step.Systick(cvr));
            i' <= i - 1 && i' < |n.sleep| && n.sleep[i'] == t && WakeOf(n.wake, t) < n.tick
  {
    hide Inv, Next;
    HeadAlsoExpired(s, cvr, i);
    SystickSleep(s, cvr);
    SleeperKept(s, cvr, t);
    i' := i - 1;
    if s.curr.value in s.exiting { i' := WithoutIndex(s.sleep[1..], s.curr.value, i - 1); }
  }

  lemma HeadAlsoExpired<T>(s: Sched<T>, cvr: nat, i: nat)
    requires Inv(s) && s.curr.Some? && 0 < i < |s.sleep| && WakeOf(s.wake, s.sleep[i]) < s.tick
    ensures HeadExpired(Advanced(s, cvr)) && s.sleep[i] != s.curr.value && s.sleep[i] in s.sleep
    ensures s.sleep[1..][i - 1] == s.sleep[i]
  {
    assert s.sleep[0] in s.sleep && s.sleep[i] in s.sleep;
    assert WakeOf(s.wake, s.sleep[0]) <= WakeOf(s.wake, s.sleep[i]);
  }

  // A tick does not touch the wake-up time of a sleeper other than the head.
  lemma SleeperKept<T>(s: Sched<T>, cvr: nat, t: T)
    requires Inv(s) && Enabled(s, Step.Systick(cvr)) && t in s.sleep && t != s.curr.value
    ensures WakeOf(Next(s, Step.Systick(cvr)).wake, t) <= WakeOf(s.wake, t)
  {
    ExpireSleep(Advanced(s, cvr));
    RequeueKeeps(Expire(Advanced(s, cvr)));
    ReapKeeps(Requeue(Expire(Advanced(s, cvr))), t);
    PickKeeps(Rescheduled(s, cvr));
  }

  ghost predicate ExpiredAt<T>(trace: seq<Sched<T>>, t: T, i: nat, k: nat) {
    i < |trace| && k < |trace[i].sleep| && trace[i].sleep[k] == t && WakeOf(trace[i].wake, t) < trace[i].tick
  }

  ghost predicate ReadyAt<T>(trace: seq<Sched<T>>, t: T, i: nat) {
    i < |trace| && t !in trace[i].sleep && Ready(trace[i], t)
  }

  ghost function Expired<T>(trace: seq<Sched<T>>, t: T): (nat, nat) -> bool {
    (i: nat, k: nat) => ExpiredAt(trace, t, i, k)
  }

  ghost function Woken<T>(trace: seq<Sched<T>>, t: T): nat -> bool {
    (i: nat) => ReadyAt(trace, t, i)
  }

  lemma SleepGoes<T>(s: Sched<T>, step: Step<T>, s': Sched<T>, t: T, k: nat) returns (k': nat)
    requires Inv(s) && Goes(s, step, s') && k < |s.sleep| && s.sleep[k] == t && WakeOf(s.wake, t) < s.tick
    requires step != Step.Block(t)
    ensures (t !in s'.sleep && Ready(s', t))
            || (k' < |s'.sleep| && s'.sleep[k'] == t && WakeOf(s'.wake, t) < s'.tick
                && k' <= if step.Systick? then k - 1 else k)
  {
    k' := SleepAdvance(s, step, t, k);
  }

  lemma SleepCloser<T>(trace: seq<Sched<T>>, steps: seq<Step<T>>, t: T, i: nat, k: nat)
    requires Run(trace, steps) && Inv(trace[0]) && i < |steps| && ExpiredAt(trace, t, i, k) && steps[i] != Step.Block(t)
    ensures ReadyAt(trace, t, i + 1) || Closer(Expired(trace, t), i + 1, if steps[i].Systick? then k - 1 else k)
  {
    hide Inv, Goes;
    RunInv(trace, steps, i);
    RunGoes(trace, steps, i);
    var k' := SleepGoes(trace[i], steps[i], trace[i + 1], t, k);
    assert ExpiredAt(trace, t, i + 1, k') == Expired(trace, t)(i + 1, k');
  }

  lemma SleepApproaches<T>(trace: seq<Sched<T>>, steps: seq<Step<T>>, t: T, from: nat)
    requires Run(trace, steps) && Inv(trace[0])
    requires forall i :: from <= i < |steps| ==> steps[i] != Step.Block(t)
    ensures Approaches(steps, from, Expired(trace, t), Woken(trace, t))
  {
    hide Inv, Goes;
    forall i: nat, j: nat | from <= i < |steps| && Expired(trace, t)(i, j)
      ensures Woken(trace, t)(i + 1) || Closer(Expired(trace, t), i + 1, if steps[i].Systick? then j - 1 else j)
    {
      SleepCloser(trace, steps, t, i, j);
    }
  }

  // An expired sleeper at index k of the sleep queue is ready again within k + 1 ticks, so k
  // expired sleepers are all ready within k ticks, and the queue wakes in deadline order.
  lemma WakeLatency<T>(trace: seq<Sched<T>>, steps: seq<Step<T>>, t: T, from: nat, k: nat) returns (n: nat)
    requires Run(trace, steps) && Inv(trace[0]) && from <= |steps| && ExpiredAt(trace, t, from, k)
    requires forall i :: from <= i < |steps| ==> steps[i] != Step.Block(t)
    requires Ticks(steps, from, |steps|) > k
    ensures from <= n <= |steps| && Ticks(steps, from, n) <= k + 1 && ReadyAt(trace, t, n)
  {
    hide Inv, Goes;
    SleepApproaches(trace, steps, t, from);
    n := Countdown(steps, from, k, Expired(trace, t), Woken(trace, t));
  }

  // ---------- the order of waking ----------

  ghost predicate Before<T>(q: seq<T>, t: T, u: T) {
    exists i, j :: 0 <= i < j < |q| && q[i] == t && q[j] == u
  }

  // A thread goes to sleep behind those that are due no later, and ahead of the others: threads
  // with one deadline are queued in the order in which they went to sleep.
  lemma SleptBehind<T>(s: Sched<T>, ms: nat, t: T)
    requires s.curr.Some? && t in s.sleep && t != s.curr.value
    ensures WakeOf(s.wake, t) <= s.tick + ms * RVR && Sorted(s.sleep, s.wake) && s.curr.value !in s.sleep ==>
              Before(Slept(s, ms).sleep, t, s.curr.value)
    ensures WakeOf(s.wake, t) > s.tick + ms * RVR ==> Before(Slept(s, ms).sleep, s.curr.value, t)
  {
    hide IndexOf, SleepPos;
    var q, c, due := s.sleep, s.curr.value, s.tick + ms * RVR;
    var wake := s.wake[c := due];
    var p := SleepPos(q, wake, due);
    var r := q[..p] + [c] + q[p..];
    var k := IndexOf(q, t);
    assert r[p] == c && r[if k < p then k else k + 1] == t;
    assert c !in q && p < |q| ==> WakeOf(s.wake, q[p]) > due by {
      if p < |q| { assert q[p] in q; }
    }
  }

  lemma BeforeInsert<T>(q: seq<T>, p: nat, c: T, t: T, u: T)
    requires Before(q, t, u) && p <= |q|
    ensures Before(q[..p] + [c] + q[p..], t, u)
  {
    var r := q[..p] + [c] + q[p..];
    var i, j :| 0 <= i < j < |q| && q[i] == t && q[j] == u;
    var i', j' := if i < p then i else i + 1, if j < p then j else j + 1;
    assert r[i'] == t && r[j'] == u;
  }

  lemma BeforeWithout<T>(q: seq<T>, c: T, t: T, u: T)
    requires Before(q, t, u) && c != u
    ensures u in Without(q, c)
    ensures c != t ==> Before(Without(q, c), t, u)
  {
    hide IndexOf, Before;
    BeforeTail(q, t, u);
    WithoutMembers(q, c);
    if c != t && c in q { BeforeRemove(q, IndexOf(q, c), t, u); }
  }

  lemma BeforeRemove<T>(q: seq<T>, k: nat, t: T, u: T)
    requires k < |q| && q[k] != t && q[k] != u && Before(q, t, u)
    ensures Before(q[..k] + q[k + 1..], t, u)
  {
    var i, j :| 0 <= i < j < |q| && q[i] == t && q[j] == u;
    var w, i', j' := q[..k] + q[k + 1..], if i < k then i else i - 1, if j < k then j else j - 1;
    assert w[i'] == t && w[j'] == u;
  }

  lemma BeforeTail<T>(q: seq<T>, t: T, u: T)
    requires Before(q, t, u)
    ensures u in q && u in q[1..] && (t != q[0] ==> Before(q[1..], t, u))
  {
    var i, j :| 0 <= i < j < |q| && q[i] == t && q[j] == u;
    assert q[1..][j - 1] == u;
    if t != q[0] { assert q[1..][i - 1] == t; }
  }

  // One step leaves the second of two sleepers asleep, and behind the first if that is asleep.
  lemma OrderStep<T>(s: Sched<T>, step: Step<T>, s': Sched<T>, t: T, u: T)
    requires Inv(s) && Goes(s, step, s') && Before(s.sleep, t, u) && step != Step.Block(u) && u in s'.cls
    ensures u in s'.sleep && (t in s'.sleep ==> Before(s'.sleep, t, u))
  {
    hide Inv, Before, Enqueue, WakeOf, SleepPos, IndexOf, Without, Created, Blocked, Rescheduled, Pick, Alarm, Slept;
    BeforeTail(s.sleep, t, u);
    match step
    case Boot(idle) => PickKeeps(Created(s, idle, Idle).(alarm := 0)); CreatedKeeps(s, idle, Idle);
    case New(v, c) => CreatedKeeps(s, v, c);
    case Systick(cvr) => OrderTick(s, cvr, t, u);
    case Sleep(ms) => OrderSlept(s, ms, t, u);
    case Block(v) => OrderBlock(s, v, t, u);
    case Unblock(v) =>
    case Kill(v) =>
  }

  lemma OrderSlept<T>(s: Sched<T>, ms: nat, t: T, u: T)
    requires s.curr.Some? && Before(s.sleep, t, u)
    ensures u in Slept(s, ms).sleep && Before(Slept(s, ms).sleep, t, u)
  {
    hide Before, SleepPos, WakeOf;
    var due := s.tick + ms * RVR;
    BeforeInsert(s.sleep, SleepPos(s.sleep, s.wake[s.curr.value := due], due), s.curr.value, t, u);
    BeforeTail(Slept(s, ms).sleep, t, u);
  }

  lemma OrderBlock<T>(s: Sched<T>, v: T, t: T, u: T)
    requires Inv(s) && Enabled(s, Step.Block(v)) && Before(s.sleep, t, u) && v != u
    ensures u in Blocked(s, v).sleep && (t in Blocked(s, v).sleep ==> Before(Blocked(s, v).sleep, t, u))
  {
    BeforeTail(s.sleep, t, u);
    if v !in s.blocked {
      BeforeWithout(s.sleep, v, t, u);
      BlockedInv(s, v);
      if v == t { OnePlace(Blocked(s, v), v); }
    }
  }

  lemma OrderTick<T>(s: Sched<T>, cvr: nat, t: T, u: T)
    requires Inv(s) && Enabled(s, Step.Systick(cvr)) && Before(s.sleep, t, u)
    requires u in Next(s, Step.Systick(cvr)).cls
    ensures var n := Next(s, Step.Systick(cvr)); u in n.sleep && (t in n.sleep ==> Before(n.sleep, t, u))
  {
    hide Before, Next, Inv;
    var n, c, q := Next(s, Step.Systick(cvr)), s.curr.value, s.sleep;
    SystickSleep(s, cvr);
    ExitGone(s, cvr);
    BeforeTail(q, t, u);
    var expired := HeadExpired(Advanced(s, cvr));
    if expired && t == q[0] {
      SleeperOnce(s);
      WithoutMembers(q[1..], c);
    } else {
      var r := if expired then q[1..] else q;
      if c in s.exiting {
        BeforeWithout(r, c, t, u);
        if c == t { SleeperGone(s, cvr); }
      } else {
        BeforeTail(r, t, u);
      }
    }
  }

  lemma SleeperOnce<T>(s: Sched<T>)
    requires Inv(s) && s.sleep != []
    ensures s.sleep[0] !in s.sleep[1..]
  {
    HeadOnce(s, Loose(s));
  }

  lemma SleeperGone<T>(s: Sched<T>, cvr: nat)
    requires Inv(s) && Enabled(s, Step.Systick(cvr)) && s.curr.value in s.exiting
    ensures s.curr.value !in Next(s, Step.Systick(cvr)).sleep
  {
    ExitLeavesNothing(s, cvr);
  }

  ghost predicate Unhindered<T>(trace: seq<Sched<T>>, steps: seq<Step<T>>, u: T, from: nat, n: nat)
    requires n <= |steps| && |trace| == |steps| + 1
  {
    && (forall i :: from <= i < n ==> steps[i] != Step.Block(u))
    && (forall i :: from <= i <= n ==> u in trace[i].cls)
  }

  // While both sleep, the order is kept.
  lemma {:induction false} OrderKept<T>(trace: seq<Sched<T>>, steps: seq<Step<T>>, t: T, u: T, from: nat, n: nat)
    requires Run(trace, steps) && Inv(trace[0]) && from <= n <= |steps| && Before(trace[from].sleep, t, u)
    requires Unhindered(trace, steps, u, from, n) && forall i :: from <= i < n ==> t in trace[i].sleep
    ensures u in trace[n].sleep && (t in trace[n].sleep ==> Before(trace[n].sleep, t, u))
  {
    hide Inv, Goes, Before;
    if from == n {
      BeforeTail(trace[n].sleep, t, u);
    } else {
      OrderKept(trace, steps, t, u, from, n - 1);
      RunInv(trace, steps, n - 1);
      RunGoes(trace, steps, n - 1);
      OrderStep(trace[n - 1], steps[n - 1], trace[n], t, u);
    }
  }

  // Sleepers leave the sleep queue in its order: one that is no longer asleep, and was neither
  // blocked nor removed, has been preceded by every thread that was ahead of it.
  lemma {:induction false} WakeOrder<T>(trace: seq<Sched<T>>, steps: seq<Step<T>>, t: T, u: T, from: nat, n: nat)
    returns (m: nat)
    requires Run(trace, steps) && Inv(trace[0]) && from <= n <= |steps| && Before(trace[from].sleep, t, u)
    requires Unhindered(trace, steps, u, from, n) && u !in trace[n].sleep
    ensures from < m < n && t !in trace[m].sleep && u in trace[m].sleep
  {
    hide Inv, Goes, Before;
    m := from;
    while m < n && t in trace[m].sleep
      invariant from <= m <= n && forall i :: from <= i < m ==> t in trace[i].sleep
    {
      m := m + 1;
    }
    OrderKept(trace, steps, t, u, from, m);
    BeforeTail(trace[from].sleep, t, u);
    SleepsFirst(trace[from].sleep, t, u);
  }

  lemma SleepsFirst<T>(q: seq<T>, t: T, u: T)
    requires Before(q, t, u)
    ensures t in q
  {
  }

  // The comment on process_expired_delays says it enqueues all expired threads. It does so
  // exactly when no more than one is expired.
  lemma WakesAllExpired<T>(s: Sched<T>)
    requires Timed(s) && AlarmRings(s)
    ensures (forall i :: 0 <= i < |Expire(s).sleep| ==> WakeOf(s.wake, Expire(s).sleep[i]) >= s.tick)
            <==> |s.sleep| < 2 || WakeOf(s.wake, s.sleep[1]) >= s.tick
  {
    if s.sleep != [] {
      EnqueueKeeps(s.(sleep := s.sleep[1..]), s.sleep[0]);
      if |s.sleep| >= 2 {
        assert s.sleep[1..][0] == s.sleep[1];
        assert HeadExpired(s) ==> Expire(s).sleep == s.sleep[1..];
      }
    }
  }

  // A thread that went to sleep at `tick` is due, by the strict comparison of the wake-up
  // loop, at a tick `runtime` cycles later.
  ghost predicate DueAfter(tick: nat, ms: nat, runtime: nat) { tick + ms * RVR < tick + runtime }

  // A sleep of at least a millisecond outlasts the tick that switches the thread out,
  // whatever that tick's length; a sleep of none does not.
  lemma SleepOutlastsTick(tick: nat, ms: nat)
    ensures (forall runtime: nat :: runtime <= RVR ==> !DueAfter(tick, ms, runtime)) <==> ms >= 1
  {
    if ms == 0 { assert DueAfter(tick, ms, 1); }
  }

  // When a tick puts the running thread back, that thread is on no list, so the insertion
  // does not find it linked; a thread that has gone to sleep is not put back.
  lemma RequeueUnlinked<T>(s: Sched<T>, cvr: nat)
    requires Inv(s) && Enabled(s, Step.Systick(cvr))
    ensures var e, c := Expire(Advanced(s, cvr)), s.curr.value;
            && (WakeOf(s.wake, c) == 0 ==> WakeOf(e.wake, c) == 0 && Times(e, c) == 0)
            && (WakeOf(s.wake, c) > 0 ==> WakeOf(e.wake, c) == WakeOf(s.wake, c) && c in e.sleep && Requeue(e) == e)
  {
    var a, c := Advanced(s, cvr), s.curr.value;
    assert Orderly(a, Loose(s)) by { assert forall t :: t in s.cls ==> Times(a, t) == Times(s, t); }
    ExpireOrderly(a, Loose(s));
    ExpireKeeps(a);
  }

  // ---------- exit ----------

  // Removing the running thread leaves it in no queue and not in the idle slot exactly when it is
  // REAL_TIME or has gone to sleep: the other classes do not record the queue that holds a
  // thread, and nothing clears the idle slot.
  lemma ExitSound<T>(s: Sched<T>)
    requires Orderly(s, Loose(s)) && s.curr.Some?
    requires WakeOf(s.wake, s.curr.value) > 0 ==> s.curr.value in s.sleep
    ensures var r := Removed(Requeue(s), s.curr.value);
            Times(r, s.curr.value) == 0 && r.idle != s.curr <==> Reapable(s, s.curr.value)
  {
    var c := s.curr.value;
    RequeueOrderly(s);
    EnqueueKeeps(s, c);
    var q := Requeue(s);
    if s.idle != s.curr {
      assert Times(q, c) == 1;
      OccWithout(q.rt, c, c);
      OccWithout(q.sleep, c, c);
      if WakeOf(s.wake, c) == 0 && s.cls[c] == Application { assert q.app[|s.app|] == c && c in q.app; }
      if WakeOf(s.wake, c) == 0 && s.cls[c] == Background { assert q.bg[|s.bg|] == c && c in q.bg; }
    }
  }

  // A tick that finds the exit of the running thread pending leaves no trace of it.
  lemma ExitLeavesNothing<T>(s: Sched<T>, cvr: nat)
    requires Inv(s) && Enabled(s, Step.Systick(cvr)) && s.curr.value in s.exiting
    ensures var n, c := Next(s, Step.Systick(cvr)), s.curr.value;
            !InQueue(n, c) && c !in n.threads && c !in n.cls && n.curr != Some(c) && n.idle != Some(c)
  {
    var c := s.curr.value;
    ExitGone(s, cvr);
    NextInv(s, Step.Systick(cvr));
    Unqueued(Next(s, Step.Systick(cvr)), c);
  }
}
