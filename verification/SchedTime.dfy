// Time on the runs of the scheduler: how far the clock of kernel/src/kernel/scheduler.c moves,
// how long a sleep lasts, and how long a thread stays blocked.
module SchedTime {
  import opened Options
  import opened SchedSpec
  import opened SchedRuns

  // ---------- the clock ----------

  // A thread has gone to sleep since the last tick before step i.
  ghost predicate SleptSince<T>(steps: seq<Step<T>>, i: nat)
    requires i <= |steps|
  {
    exists j :: 0 <= j < i && steps[j].Sleep? && forall k :: j < k < i ==> !steps[k].Systick?
  }

  // The time from before step a to before step b: the whole period for a tick, but for the first
  // one after a sleep, which was asked for early: what the counter has counted down till then.
  ghost function Elapsed<T>(steps: seq<Step<T>>, a: nat, b: nat): int
    requires b <= |steps|
  {
    if b <= a then 0
    else Elapsed(steps, a, b - 1)
         + if !steps[b - 1].Systick? then 0 else if SleptSince(steps, b - 1) then RVR - steps[b - 1].cvr else RVR
  }

  // Ticks of a whole period.
  ghost function WholeTicks<T>(steps: seq<Step<T>>, a: nat, b: nat): nat
    requires b <= |steps|
  {
    if b <= a then 0
    else WholeTicks(steps, a, b - 1) + if steps[b - 1].Systick? && !SleptSince(steps, b - 1) then 1 else 0
  }

  lemma SleptNext<T>(steps: seq<Step<T>>, i: nat)
    requires i < |steps|
    ensures SleptSince(steps, i + 1) <==> steps[i].Sleep? || (!steps[i].Systick? && SleptSince(steps, i))
  {
    if steps[i].Sleep? { assert SleptSince(steps, i + 1); }
    if !steps[i].Systick? && SleptSince(steps, i) {
      var j :| 0 <= j < i && steps[j].Sleep? && forall k :: j < k < i ==> !steps[k].Systick?;
      assert forall k :: j < k < i + 1 ==> !steps[k].Systick?;
    }
    if SleptSince(steps, i + 1) {
      var j :| 0 <= j < i + 1 && steps[j].Sleep? && forall k :: j < k < i + 1 ==> !steps[k].Systick?;
      assert j < i ==> !steps[i].Systick?;
    }
  }

  // What a step does to the clock
  lemma ClockStep<T>(s: Sched<T>, step: Step<T>, s': Sched<T>)
    requires Inv(s) && Goes(s, step, s')
    ensures s'.tick == s.tick + if !step.Systick? then 0 else if s.pending then RVR - step.cvr else RVR
    ensures s'.pending <==> step.Sleep? || (!step.Systick? && s.pending)
  {
    hide Inv, Placed, Classed, Timed, Times, WakeOf;
    match step
    case Boot(idle) => CreatedClock(s, idle, Idle); PickClock(Created(s, idle, Idle).(alarm := 0));
    case New(t, c) => CreatedClock(s, t, c);
    case Systick(cvr) => TickClock(s, cvr);
    case Sleep(ms) =>
    case Block(t) =>
    case Unblock(t) =>
    case Kill(t) =>
  }

  lemma CreatedClock<T>(s: Sched<T>, t: T, c: Class)
    ensures Created(s, t, c).tick == s.tick && Created(s, t, c).pending == s.pending
  {
  }

  lemma PickClock<T>(s: Sched<T>)
    ensures Pick(s).tick == s.tick && Pick(s).pending == s.pending
  {
  }

  lemma TickClock<T>(s: Sched<T>, cvr: nat)
    requires s.curr.Some? && cvr <= RVR
    ensures var n := Pick(Rescheduled(s, cvr));
            n.tick == s.tick + (if s.pending then RVR - cvr else RVR) && !n.pending
  {
    hide WakeOf, Enqueue, Without, IndexOf;
    var a := Advanced(s, cvr);
    if HeadExpired(a) { EnqueueKeeps(a.(sleep := a.sleep[1..]), a.sleep[0]); }
    EnqueueKeeps(Expire(a), s.curr.value);
    PickClock(Rescheduled(s, cvr));
  }

  // The clock of every run from the start, from the steps alone.
  lemma {:induction false} ClockOfRun<T>(trace: seq<Sched<T>>, steps: seq<Step<T>>, n: nat)
    requires Run(trace, steps) && trace[0] == SchedSpec.Start() && n <= |steps|
    ensures trace[n].tick == Elapsed(steps, 0, n) && (trace[n].pending <==> SleptSince(steps, n))
  {
    hide Inv, Goes, SleptSince;
    StartInv<T>();
    if n == 0 {
      NoSleepYet(steps);
    } else {
      ClockOfRun(trace, steps, n - 1);
      RunInv(trace, steps, n - 1);
      RunGoes(trace, steps, n - 1);
      ClockStep(trace[n - 1], steps[n - 1], trace[n]);
      SleptNext(steps, n - 1);
    }
  }

  lemma NoSleepYet<T>(steps: seq<Step<T>>)
    ensures !SleptSince(steps, 0)
  {
  }

  lemma {:induction false} ElapsedSplit<T>(steps: seq<Step<T>>, a: nat, b: nat)
    requires a <= b <= |steps|
    ensures Elapsed(steps, 0, b) == Elapsed(steps, 0, a) + Elapsed(steps, a, b)
  {
    hide SleptSince;
    if a < b { ElapsedSplit(steps, a, b - 1); }
  }

  // Between two states of a run.
  lemma ClockBetween<T>(trace: seq<Sched<T>>, steps: seq<Step<T>>, m: nat, n: nat)
    requires Run(trace, steps) && trace[0] == SchedSpec.Start() && m <= n <= |steps|
    ensures trace[n].tick == trace[m].tick + Elapsed(steps, m, n)
  {
    ClockOfRun(trace, steps, m);
    ClockOfRun(trace, steps, n);
    ElapsedSplit(steps, m, n);
  }

  // While nobody sleeps every tick is a whole period, whatever the counter reads.
  lemma {:induction false} SteadyClock<T>(trace: seq<Sched<T>>, steps: seq<Step<T>>, m: nat, n: nat)
    requires Run(trace, steps) && trace[0] == SchedSpec.Start() && m <= n <= |steps|
    requires forall i :: 0 <= i < n ==> !steps[i].Sleep?
    ensures trace[n].tick == trace[m].tick + RVR * Ticks(steps, m, n)
  {
    ClockBetween(trace, steps, m, n);
    SteadyElapsed(steps, m, n);
  }

  lemma {:induction false} SteadyElapsed<T>(steps: seq<Step<T>>, m: nat, n: nat)
    requires m <= n <= |steps| && forall i :: 0 <= i < n ==> !steps[i].Sleep?
    ensures Elapsed(steps, m, n) == RVR * Ticks(steps, m, n)
  {
    if m < n { SteadyElapsed(steps, m, n - 1); }
  }

  ghost predicate Counters<T>(steps: seq<Step<T>>) {
    forall k :: 0 <= k < |steps| && steps[k].Systick? ==> steps[k].cvr <= RVR
  }

  lemma RunCounters<T>(trace: seq<Sched<T>>, steps: seq<Step<T>>)
    requires Run(trace, steps)
    ensures Counters(steps)
  {
    hide Goes;
    forall k | 0 <= k < |steps| && steps[k].Systick?
      ensures steps[k].cvr <= RVR
    {
      RunGoes(trace, steps, k);
      CounterOf(trace[k], steps[k], trace[k + 1]);
    }
  }

  lemma CounterOf<T>(s: Sched<T>, step: Step<T>, s': Sched<T>)
    requires Goes(s, step, s') && step.Systick?
    ensures step.cvr <= RVR
  {
  }

  lemma {:induction false} ElapsedBounds<T>(steps: seq<Step<T>>, m: nat, n: nat)
    requires Counters(steps) && m <= n <= |steps|
    ensures RVR * WholeTicks(steps, m, n) <= Elapsed(steps, m, n) <= RVR * Ticks(steps, m, n)
  {
    hide SleptSince;
    if m < n { ElapsedBounds(steps, m, n - 1); }
  }

  // ---------- how long a sleep lasts ----------

  // The wake-up time of a thread that goes to sleep at step i for ms milliseconds has passed
  // after ms + 1 whole ticks, and has not before the ms + 1st tick.
  lemma OverdueAfter<T>(trace: seq<Sched<T>>, steps: seq<Step<T>>, i: nat, n: nat)
    requires Run(trace, steps) && trace[0] == SchedSpec.Start() && i < n <= |steps| && steps[i].Sleep?
    ensures trace[i].curr.Some? && trace[i].curr.value in trace[i + 1].sleep
    ensures var due := WakeOf(trace[i + 1].wake, trace[i].curr.value);
            && (WholeTicks(steps, i, n) > steps[i].ms ==> due < trace[n].tick)
            && (Ticks(steps, i, n) <= steps[i].ms ==> trace[n].tick <= due)
  {
    hide Inv, Slept, SleptSince;
    RunGoes(trace, steps, i);
    SleptMembers(trace[i], steps[i].ms);
    ClockBetween(trace, steps, i, n);
    RunCounters(trace, steps);
    ElapsedBounds(steps, i, n);
  }

  // A sleeper that is not overdue stays asleep, with the same wake-up time.
  lemma SleepStays<T>(s: Sched<T>, step: Step<T>, s': Sched<T>, t: T)
    requires Inv(s) && Goes(s, step, s') && t in s.sleep && step != Step.Block(t) && t in s'.cls
    requires WakeOf(s.wake, t) >= s'.tick
    ensures t in s'.sleep && WakeOf(s'.wake, t) == WakeOf(s.wake, t)
  {
    hide Classed, Placed, Occ, IndexOf, Without, Enqueue, SleepPos, Created, Pick, Rescheduled, Slept, Times;
    SleeperKnown(s, t);
    match step
    case Boot(idle) => assert false;
    case New(u, c) => CreatedKeeps(s, u, c);
    case Systick(cvr) => TickStays(s, cvr, t);
    case Sleep(ms) => SleptStays(s, ms, t);
    case Block(u) => WithoutMembers(s.sleep, u);
    case Unblock(u) => if u in s.blocked { OnePlace(s, u); }
    case Kill(u) =>
  }

  lemma SleeperKnown<T>(s: Sched<T>, t: T)
    requires Inv(s) && t in s.sleep
    ensures t in s.cls && t in s.wake && WakeOf(s.wake, t) > 0
  {
  }

  lemma SleptStays<T>(s: Sched<T>, ms: nat, t: T)
    requires Inv(s) && Enabled(s, Step.Sleep(ms)) && t in s.sleep
    ensures t in Slept(s, ms).sleep && WakeOf(Slept(s, ms).wake, t) == WakeOf(s.wake, t)
  {
    var due := s.tick + ms * RVR;
    SleeperKnown(s, t);
    SleepInsertMembers(s.sleep, s.wake[s.curr.value := due], s.curr.value, due);
  }

  lemma TickStays<T>(s: Sched<T>, cvr: nat, t: T)
    requires Inv(s) && Enabled(s, Step.Systick(cvr)) && t in s.sleep
    requires t in Next(s, Step.Systick(cvr)).cls && WakeOf(s.wake, t) >= Next(s, Step.Systick(cvr)).tick
    ensures var n := Next(s, Step.Systick(cvr)); t in n.sleep && WakeOf(n.wake, t) == WakeOf(s.wake, t)
  {
    var n, a, c := Next(s, Step.Systick(cvr)), Advanced(s, cvr), s.curr.value;
    if t !in n.sleep { NotWokenEarly(s, cvr, t); }
    SleeperKnown(s, t);
    SystickSleep(s, cvr);
    ExpireSleep(a);
    RequeueKeeps(Expire(a));
    ExitGone(s, cvr);
    ReapWake(Requeue(Expire(a)), t);
    PickKeeps(Rescheduled(s, cvr));
  }

  lemma ReapWake<T>(s: Sched<T>, t: T)
    requires s.curr.Some? && (s.curr.value in s.exiting ==> t != s.curr.value)
    ensures WakeOf(Reap(s).wake, t) == WakeOf(s.wake, t)
  {
  }

  // A sleep of ms milliseconds lasts for at least ms ticks, unless the thread is blocked or
  // removed in between.
  lemma {:induction false} SleepLasts<T>(trace: seq<Sched<T>>, steps: seq<Step<T>>, t: T, i: nat, n: nat)
    requires Run(trace, steps) && trace[0] == SchedSpec.Start() && i < n <= |steps|
    requires steps[i].Sleep? && trace[i].curr == Some(t) && Ticks(steps, i, n) <= steps[i].ms
    requires Unhindered(trace, steps, t, i + 1, n)
    ensures t in trace[n].sleep && WakeOf(trace[n].wake, t) == WakeOf(trace[i + 1].wake, t)
  {
    hide Inv, Goes, WakeOf;
    OverdueAfter(trace, steps, i, n);
    if n > i + 1 {
      SleepLasts(trace, steps, t, i, n - 1);
      StartInv<T>();
      RunInv(trace, steps, n - 1);
      RunGoes(trace, steps, n - 1);
      SleepStays(trace[n - 1], steps[n - 1], trace[n], t);
    }
  }

  // ---------- blocked threads ----------

  // Blocking takes a thread from wherever it is.
  lemma BlockStops<T>(s: Sched<T>, t: T, s': Sched<T>)
    requires Inv(s) && Goes(s, Step.Block(t), s')
    ensures t in s'.blocked && t !in s'.rt && t !in s'.sleep && s'.curr != Some(t)
  {
    hide Inv, Without;
    BlockedInv(s, t);
    Joins(s, t);
    BlockedPlace(s', t);
  }

  lemma Joins<T>(s: Sched<T>, t: T)
    ensures t in Blocked(s, t).blocked
  {
    hide Without;
    if t !in s.blocked { assert Blocked(s, t).blocked[|s.blocked|] == t; }
  }

  lemma BlockedStep<T>(s: Sched<T>, step: Step<T>, s': Sched<T>, t: T)
    requires Inv(s) && Goes(s, step, s') && t in s.blocked && step != Step.Unblock(t)
    ensures t in s'.blocked
  {
    hide Inv, Placed, Occ, IndexOf, Without, Pick, Rescheduled;
    match step
    case Boot(idle) => PickBlocked(Created(s, idle, Idle).(alarm := 0));
    case New(u, c) =>
    case Systick(cvr) => TickElsewhere(s, cvr);
    case Sleep(ms) =>
    case Block(u) =>
    case Unblock(u) => WithoutMembers(s.blocked, u);
    case Kill(u) =>
  }

  lemma PickBlocked<T>(s: Sched<T>)
    ensures Pick(s).blocked == s.blocked
  {
  }

  // A blocked thread does not run, and is on no run queue and not asleep, until it is unblocked.
  lemma {:induction false} BlockedStays<T>(trace: seq<Sched<T>>, steps: seq<Step<T>>, t: T, i: nat, n: nat)
    requires Run(trace, steps) && Inv(trace[0]) && i <= n <= |steps| && t in trace[i].blocked
    requires forall k :: i <= k < n ==> steps[k] != Step.Unblock(t)
    ensures t in trace[n].blocked && t !in trace[n].rt && t !in trace[n].sleep && trace[n].curr != Some(t)
  {
    hide Inv, Goes;
    if i < n {
      BlockedStays(trace, steps, t, i, n - 1);
      RunInv(trace, steps, n - 1);
      RunGoes(trace, steps, n - 1);
      BlockedStep(trace[n - 1], steps[n - 1], trace[n], t);
    }
    RunInv(trace, steps, n);
    BlockedPlace(trace[n], t);
  }

  lemma BlockedPlace<T>(s: Sched<T>, t: T)
    requires Inv(s) && t in s.blocked
    ensures t in s.cls && t !in s.rt && t !in s.sleep && s.curr != Some(t)
  {
    OnePlace(s, t);
  }

  lemma UnblockReady<T>(s: Sched<T>, t: T, s': Sched<T>)
    requires Inv(s) && Goes(s, Step.Unblock(t), s') && t in s.blocked
    ensures s'.rt == s.rt + [t] && t !in s'.blocked && WakeOf(s'.wake, t) == 0
  {
    UnblockedInv(s, t);
    assert s'.rt[|s.rt|] == t && t in s'.rt;
    OnePlace(s', t);
  }

  // An unblocked thread is awake, and behind the real-time threads that are ready: with k of them
  // it runs after at most k + 1 ticks, if it is not blocked again.
  lemma UnblockRuns<T>(trace: seq<Sched<T>>, steps: seq<Step<T>>, t: T, i: nat) returns (n: nat)
    requires Run(trace, steps) && Inv(trace[0]) && i < |steps| && steps[i] == Step.Unblock(t) && t in trace[i].blocked
    requires forall k :: i < k < |steps| ==> steps[k] != Step.Block(t)
    requires Ticks(steps, i + 1, |steps|) > |trace[i].rt|
    ensures i < n <= |steps| && Ticks(steps, i + 1, n) <= |trace[i].rt| + 1 && RunsAt(trace, t, n)
  {
    hide Inv, Goes;
    RunInv(trace, steps, i);
    RunGoes(trace, steps, i);
    UnblockReady(trace[i], t, trace[i + 1]);
    assert RtAt(trace, t, i + 1, |trace[i].rt|);
    n := RtLatency(trace, steps, t, i + 1, |trace[i].rt|);
  }

  // ---------- exits ----------

  // A pending exit is not forgotten.
  lemma ExitingStep<T>(s: Sched<T>, step: Step<T>, s': Sched<T>, t: T)
    requires Inv(s) && Goes(s, step, s') && t in s.exiting && t in s'.cls
    ensures t in s'.exiting
  {
    hide Inv, Placed, Classed, Timed, Times, WakeOf, Rescheduled;
    match step
    case Boot(idle) => PickExiting(Created(s, idle, Idle).(alarm := 0));
    case New(u, c) =>
    case Systick(cvr) => ExitingTick(s, cvr, t);
    case Sleep(ms) =>
    case Block(u) =>
    case Unblock(u) =>
    case Kill(u) =>
  }

  lemma PickExiting<T>(s: Sched<T>)
    ensures Pick(s).exiting == s.exiting
  {
  }

  lemma ExitingTick<T>(s: Sched<T>, cvr: nat, t: T)
    requires Inv(s) && Enabled(s, Step.Systick(cvr)) && t in s.exiting && t in Next(s, Step.Systick(cvr)).cls
    ensures t in Next(s, Step.Systick(cvr)).exiting
  {
    hide Inv, Pick, Expire, Requeue;
    var a := Advanced(s, cvr);
    ExitGone(s, cvr);
    ExpireSleep(a);
    RequeueKeeps(Expire(a));
    PickExiting(Rescheduled(s, cvr));
  }

  // A thread that has been killed is removed by the first tick that finds it running, however long
  // that takes, and is then on no queue, in no table and in no slot.
  lemma {:induction false} KilledLeaves<T>(trace: seq<Sched<T>>, steps: seq<Step<T>>, t: T, i: nat, n: nat)
    requires Run(trace, steps) && Inv(trace[0]) && i < n < |steps| && steps[i] == Step.Kill(t)
    requires steps[n].Systick? && trace[n].curr == Some(t) && forall k :: i < k <= n ==> t in trace[k].cls
    ensures var s := trace[n + 1];
            !InQueue(s, t) && t !in s.threads && t !in s.cls && s.curr != Some(t) && s.idle != Some(t)
  {
    hide Inv, Goes, InQueue;
    StillExiting(trace, steps, t, i, n);
    RunInv(trace, steps, n);
    RunGoes(trace, steps, n);
    LeavesNothing(trace[n], steps[n], trace[n + 1], t);
  }

  lemma {:induction false} StillExiting<T>(trace: seq<Sched<T>>, steps: seq<Step<T>>, t: T, i: nat, n: nat)
    requires Run(trace, steps) && Inv(trace[0]) && i < n <= |steps| && steps[i] == Step.Kill(t)
    requires forall k :: i < k <= n ==> t in trace[k].cls
    ensures t in trace[n].exiting
  {
    hide Inv, Goes;
    RunInv(trace, steps, n - 1);
    RunGoes(trace, steps, n - 1);
    if i + 1 == n {
      KillMarks(trace[i], t, trace[n]);
    } else {
      StillExiting(trace, steps, t, i, n - 1);
      ExitingStep(trace[n - 1], steps[n - 1], trace[n], t);
    }
  }

  lemma KillMarks<T>(s: Sched<T>, t: T, s': Sched<T>)
    requires Goes(s, Step.Kill(t), s')
    ensures t in s'.exiting
  {
  }

  lemma LeavesNothing<T>(s: Sched<T>, step: Step<T>, s': Sched<T>, t: T)
    requires Inv(s) && Goes(s, step, s') && step.Systick? && s.curr == Some(t) && t in s.exiting
    ensures !InQueue(s', t) && t !in s'.threads && t !in s'.cls && s'.curr != Some(t) && s'.idle != Some(t)
  {
    ExitLeavesNothing(s, step.cvr);
  }
}
