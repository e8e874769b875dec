// Runs from the start that reach the limits of scheduler.c.
module SchedCases {
  import opened Options
  import opened SchedSpec
  import opened SchedRuns

  // ---------- two sleepers with one deadline ----------

  // Threads 1 and 2 are REAL_TIME, 0 is the idle thread.
  ghost function Three(rt: seq<nat>, sleep: seq<nat>, curr: nat, wake1: nat, wake2: nat, tick: nat, alarm: nat,
                       pending: bool): Sched<nat> {
    Sched(rt, [], [], sleep, [], Some(0), Some(curr), [2, 1, 0], map[0 := Idle, 1 := RealTime, 2 := RealTime],
          map[0 := 0, 1 := wake1, 2 := wake2], {}, tick, alarm, pending)
  }

  ghost function Booted(): Sched<nat> {
    Sched([], [], [], [], [], Some(0), Some(0), [0], map[0 := Idle], map[0 := 0], {}, 0, 0, false)
  }

  ghost function WithFirst(): Sched<nat> {
    Sched([1], [], [], [], [], Some(0), Some(0), [1, 0], map[0 := Idle, 1 := RealTime], map[0 := 0, 1 := 0], {},
          0, 0, false)
  }

  // Both threads are started and sleep for a millisecond within one tick, thread 1 after `a` more
  // cycles and thread 2 after `b`; at the second tick from then both are overdue.
  ghost function TwoSleepers(a: nat, b: nat): seq<Step<nat>>
    requires 0 < b && a + b < RVR
  {
    [Step.Boot(0), Step.New(1, RealTime), Step.New(2, RealTime), Step.Systick(0), Step.Sleep(1), Step.Systick(RVR - a),
     Step.Sleep(1), Step.Systick(RVR - b), Step.Systick(0)]
  }

  ghost function TwoSleepersStates(a: nat, b: nat): seq<Sched<nat>> {
    [SchedSpec.Start<nat>(), Booted(), WithFirst(),
     Three([1, 2], [], 0, 0, 0, 0, 0, false),
     Three([2], [], 1, 0, 0, RVR, 0, false),
     Three([2], [1], 1, 2 * RVR, 0, RVR, 2 * RVR, true),
     Three([], [1], 2, 2 * RVR, 0, RVR + a, 2 * RVR, false),
     Three([], [1, 2], 2, 2 * RVR, 2 * RVR + a, RVR + a, 2 * RVR, true),
     Three([], [1, 2], 0, 2 * RVR, 2 * RVR + a, RVR + a + b, 2 * RVR, false),
     Three([], [2], 1, 0, 2 * RVR + a, 2 * RVR + a + b, 2 * RVR + a, false)]
  }

  lemma BootStep()
    ensures Goes(SchedSpec.Start<nat>(), Step.Boot(0), Booted())
  {
    assert map[][0 := Idle] == map[0 := Idle];
  }

  lemma FirstStep()
    ensures Goes(Booted(), Step.New(1, RealTime), WithFirst())
  {
    assert [1] + [0] == [1, 0];
  }

  lemma SecondStep()
    ensures Goes(WithFirst(), Step.New(2, RealTime), Three([1, 2], [], 0, 0, 0, 0, 0, false))
  {
    assert [2] + [1, 0] == [2, 1, 0];
  }

  lemma FirstTick()
    ensures Goes(Three([1, 2], [], 0, 0, 0, 0, 0, false), Step.Systick(0), Three([2], [], 1, 0, 0, RVR, 0, false))
  {
  }

  // Each of the two goes to sleep, and a short tick switches it out.
  lemma FirstSleeps(a: nat)
    requires a < RVR
    ensures Goes(Three([2], [], 1, 0, 0, RVR, 0, false), Step.Sleep(1),
                 Three([2], [1], 1, 2 * RVR, 0, RVR, 2 * RVR, true))
    ensures Goes(Three([2], [1], 1, 2 * RVR, 0, RVR, 2 * RVR, true), Step.Systick(RVR - a),
                 Three([], [1], 2, 2 * RVR, 0, RVR + a, 2 * RVR, false))
  {
  }

  lemma SecondSleeps(a: nat, b: nat)
    requires a + b < RVR
    ensures Goes(Three([], [1], 2, 2 * RVR, 0, RVR + a, 2 * RVR, false), Step.Sleep(1),
                 Three([], [1, 2], 2, 2 * RVR, 2 * RVR + a, RVR + a, 2 * RVR, true))
    ensures Goes(Three([], [1, 2], 2, 2 * RVR, 2 * RVR + a, RVR + a, 2 * RVR, true), Step.Systick(RVR - b),
                 Three([], [1, 2], 0, 2 * RVR, 2 * RVR + a, RVR + a + b, 2 * RVR, false))
  {
  }

  // After a whole tick both are overdue, and one of them is woken.
  lemma OneWakes(a: nat, b: nat)
    requires 0 < b && a + b < RVR
    ensures Goes(Three([], [1, 2], 0, 2 * RVR, 2 * RVR + a, RVR + a + b, 2 * RVR, false), Step.Systick(0),
                 Three([], [2], 1, 0, 2 * RVR + a, 2 * RVR + a + b, 2 * RVR + a, false))
  {
  }

  // Thread 2 is overdue as thread 1 is, but the tick that wakes thread 1 leaves it asleep.
  lemma TwoSleepersRun(a: nat, b: nat)
    requires 0 < b && a + b < RVR
    ensures Run(TwoSleepersStates(a, b), TwoSleepers(a, b)) && TwoSleepersStates(a, b)[0] == SchedSpec.Start<nat>()
    ensures var s, n := TwoSleepersStates(a, b)[8], TwoSleepersStates(a, b)[9];
            && s.sleep == [1, 2] && WakeOf(s.wake, 1) <= WakeOf(s.wake, 2) < n.tick
            && n.curr == Some(1) && n.sleep == [2] && WakeOf(n.wake, 2) < n.tick
  {
    RunOfTwo(a, b, TwoSleepersStates(a, b), TwoSleepers(a, b));
  }

  lemma RunOfTwo(a: nat, b: nat, trace: seq<Sched<nat>>, steps: seq<Step<nat>>)
    requires 0 < b && a + b < RVR && trace == TwoSleepersStates(a, b) && steps == TwoSleepers(a, b)
    ensures Run(trace, steps)
  {
    hide Goes, Three, Booted, WithFirst, SchedSpec.Start;
    BootStep();
    FirstStep();
    SecondStep();
    FirstTick();
    FirstSleeps(a);
    SecondSleeps(a, b);
    OneWakes(a, b);
  }

  // ---------- a second idle thread ----------

  // new_thread with class IDLE takes the idle slot, and the next tick gives it back: thread 1 is in
  // the tables, and on no queue and in no slot.
  lemma IdleLost()
    ensures var s := Created(Booted(), 1, Idle);
            var n := Pick(Rescheduled(s, 0));
            && s.idle == Some(1) && n.idle == Some(0) == n.curr
            && 1 in n.threads && 1 in n.cls && Times(n, 1) == 0
  {
  }

  // ---------- an APPLICATION thread that is killed while awake ----------

  // Thread 1 is the APPLICATION thread.
  ghost function App(app: seq<nat>, curr: nat, exiting: set<nat>, tick: nat): Sched<nat> {
    Sched([], app, [], [], [], Some(0), Some(curr), [1, 0], map[0 := Idle, 1 := Application], map[0 := 0, 1 := 0],
          exiting, tick, 0, false)
  }

  lemma KilledRun() returns (trace: seq<Sched<nat>>, steps: seq<Step<nat>>)
    ensures Run(trace, steps) && |steps| == 4
    ensures trace[0] == SchedSpec.Start<nat>() && trace[4] == App([], 1, {1}, RVR)
  {
    hide Goes, App, Booted;
    BootStep();
    AppCreated();
    AppTick();
    AppKilled();
    trace := [SchedSpec.Start<nat>(), Booted(), App([1], 0, {}, 0), App([], 1, {}, RVR), App([], 1, {1}, RVR)];
    steps := [Step.Boot(0), Step.New(1, Application), Step.Systick(0), Step.Kill(1)];
  }

  lemma AppCreated()
    ensures Goes(Booted(), Step.New(1, Application), App([1], 0, {}, 0))
  {
    assert [1] + [0] == [1, 0];
  }

  lemma AppTick()
    ensures Goes(App([1], 0, {}, 0), Step.Systick(0), App([], 1, {}, RVR))
  {
  }

  lemma AppKilled()
    ensures Goes(App([], 1, {}, RVR), Step.Kill(1), App([], 1, {1}, RVR))
  {
  }

  // The next tick puts thread 1 back on its queue and removes it from the tables; the queue still
  // has it, its links are clear, and it is picked to run.
  lemma KilledRuns()
    ensures var s := Expire(Advanced(App([], 1, {1}, RVR), 0));
            var r := Reap(Requeue(s));
            && r == Removed(Requeue(s), 1)
            && 1 !in r.cls && 1 !in r.threads && r.app == [1] && Pick(r).curr == Some(1)
  {
    var s := Expire(Advanced(App([], 1, {1}, RVR), 0));
    assert s == App([], 1, {1}, 2 * RVR);
    assert Requeue(s) == App([1], 1, {1}, 2 * RVR);
  }
}
