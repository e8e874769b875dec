// The lower scheduling classes take turns too: app.c and background.c of kernel/src/kernel.
module SchedShares {
  import opened Options
  import opened SchedSpec
  import opened SchedRuns

  // The run queue of APPLICATION or BACKGROUND
  ghost function Lower<T>(s: Sched<T>, c: Class): seq<T> { if c == Application then s.app else s.bg }

  // The running thread is of no class above c.
  ghost predicate NotAbove<T>(s: Sched<T>, c: Class) {
    && s.curr.Some? && s.curr.value in s.cls && s.cls[s.curr.value] != RealTime
    && (c == Background ==> s.cls[s.curr.value] != Application)
  }

  lemma EnqueueLower<T>(s: Sched<T>, t: T, c: Class)
    ensures Lower(s, c) <= Lower(Enqueue(s, t), c)
  {
  }

  lemma ExpireLower<T>(s: Sched<T>, c: Class)
    ensures Lower(s, c) <= Lower(Expire(s), c)
  {
    if HeadExpired(s) { EnqueueLower(s.(sleep := s.sleep[1..]), s.sleep[0], c); }
  }

  lemma ReapLower<T>(s: Sched<T>, c: Class)
    requires s.curr.Some?
    ensures Lower(Reap(s), c) == Lower(s, c)
  {
  }

  lemma RescheduledLower<T>(s: Sched<T>, cvr: nat, c: Class)
    requires s.curr.Some?
    ensures Lower(s, c) <= Lower(Rescheduled(s, cvr), c)
  {
    hide Lower, Reap, Expire;
    var a := Advanced(s, cvr);
    assert Lower(a, c) == Lower(s, c) by { AdvancedLower(s, cvr, c); }
    ExpireLower(a, c);
    ExpireSleep(a);
    EnqueueLower(Expire(a), s.curr.value, c);
    RequeueKeeps(Expire(a));
    ReapLower(Requeue(Expire(a)), c);
  }

  lemma AdvancedLower<T>(s: Sched<T>, cvr: nat, c: Class)
    ensures Lower(Advanced(s, cvr), c) == Lower(s, c)
  {
  }

  lemma PickLower<T>(s: Sched<T>, c: Class, k: nat)
    requires k < |Lower(s, c)| && (c == Application || c == Background)
    requires s.rt == [] && (c == Background ==> s.app == [])
    ensures if k == 0 then Pick(s).curr == Some(Lower(s, c)[0])
            else k - 1 < |Lower(Pick(s), c)| && Lower(Pick(s), c)[k - 1] == Lower(s, c)[k]
  {
  }

  // A tick that goes to no thread of a higher class brings every thread of the class closer.
  lemma LowerTick<T>(s: Sched<T>, cvr: nat, c: Class, k: nat)
    requires Inv(s) && Enabled(s, Step.Systick(cvr)) && k < |Lower(s, c)| && (c == Application || c == Background)
    requires NotAbove(Next(s, Step.Systick(cvr)), c)
    ensures var n, t := Next(s, Step.Systick(cvr)), Lower(s, c)[k];
            if k == 0 then n.curr == Some(t) else k - 1 < |Lower(n, c)| && Lower(n, c)[k - 1] == t
  {
    hide Inv, Rescheduled, Pick;
    PickPriority(s, cvr);
    RescheduledLower(s, cvr, c);
    PickLower(Rescheduled(s, cvr), c, k);
  }

  // No other step brings it further away.
  lemma LowerStep<T>(s: Sched<T>, step: Step<T>, s': Sched<T>, c: Class, k: nat) returns (k': nat)
    requires Inv(s) && Goes(s, step, s') && k < |Lower(s, c)| && (c == Application || c == Background)
    requires step.Systick? ==> NotAbove(s', c)
    ensures var t := Lower(s, c)[k];
            s'.curr == Some(t)
            || (k' < |Lower(s', c)| && Lower(s', c)[k'] == t && k' <= if step.Systick? then k - 1 else k)
  {
    hide Inv, Rescheduled, NotAbove;
    k' := k;
    match step
    case Boot(idle) => k' := BootLower(s, idle, c, k);
    case New(u, d) => CreatedLower(s, u, d, c);
    case Systick(cvr) =>
      LowerTick(s, cvr, c, k);
      if k > 0 { k' := k - 1; }
    case Sleep(ms) =>
    case Block(u) =>
    case Unblock(u) =>
    case Kill(u) =>
  }

  lemma CreatedLower<T>(s: Sched<T>, u: T, d: Class, c: Class)
    ensures Lower(s, c) <= Lower(Created(s, u, d), c)
  {
    EnqueueLower(s.(cls := s.cls[u := d], wake := s.wake[u := 0], threads := [u] + s.threads), u, c);
  }

  lemma BootLower<T>(s: Sched<T>, idle: T, c: Class, k: nat) returns (k': nat)
    requires k < |Lower(s, c)| && (c == Application || c == Background)
    ensures var n, t := Pick(Created(s, idle, Idle).(alarm := 0)), Lower(s, c)[k];
            n.curr == Some(t) || (k' < |Lower(n, c)| && Lower(n, c)[k'] == t && k' <= k)
  {
    var b := Created(s, idle, Idle).(alarm := 0);
    assert b.rt == s.rt && b.app == s.app && b.bg == s.bg;
    k' := k;
    if b.rt == [] && (c == Background ==> b.app == []) && k > 0 { k' := k - 1; }
  }

  ghost predicate LowerAt<T>(trace: seq<Sched<T>>, c: Class, t: T, i: nat, k: nat) {
    i < |trace| && k < |Lower(trace[i], c)| && Lower(trace[i], c)[k] == t
  }

  ghost function LowerWaits<T>(trace: seq<Sched<T>>, c: Class, t: T): (nat, nat) -> bool {
    (i: nat, k: nat) => LowerAt(trace, c, t, i, k)
  }

  lemma LowerCloser<T>(trace: seq<Sched<T>>, steps: seq<Step<T>>, c: Class, t: T, i: nat, k: nat)
    requires Run(trace, steps) && Inv(trace[0]) && i < |steps| && LowerAt(trace, c, t, i, k)
    requires (c == Application || c == Background) && (steps[i].Systick? ==> NotAbove(trace[i + 1], c))
    ensures RunsAt(trace, t, i + 1) || Closer(LowerWaits(trace, c, t), i + 1, if steps[i].Systick? then k - 1 else k)
  {
    hide Inv, Goes, NotAbove, Lower;
    RunInv(trace, steps, i);
    RunGoes(trace, steps, i);
    var k' := LowerStep(trace[i], steps[i], trace[i + 1], c, k);
    assert LowerAt(trace, c, t, i + 1, k') == LowerWaits(trace, c, t)(i + 1, k');
  }

  // A ready APPLICATION or BACKGROUND thread at index k of its queue runs after at most k + 1
  // ticks, as long as no tick goes to a thread of a higher class.
  lemma LowerLatency<T>(trace: seq<Sched<T>>, steps: seq<Step<T>>, c: Class, t: T, from: nat, k: nat) returns (n: nat)
    requires Run(trace, steps) && Inv(trace[0]) && from <= |steps| && LowerAt(trace, c, t, from, k)
    requires c == Application || c == Background
    requires forall i :: from <= i < |steps| && steps[i].Systick? ==> NotAbove(trace[i + 1], c)
    requires Ticks(steps, from, |steps|) > k
    ensures from <= n <= |steps| && Ticks(steps, from, n) <= k + 1 && RunsAt(trace, t, n)
  {
    hide Inv, Goes, NotAbove, Lower;
    forall i: nat, j: nat | from <= i < |steps| && LowerWaits(trace, c, t)(i, j)
      ensures Runs(trace, t)(i + 1) || Closer(LowerWaits(trace, c, t), i + 1, if steps[i].Systick? then j - 1 else j)
    {
      LowerCloser(trace, steps, c, t, i, j);
    }
    n := Countdown(steps, from, k, LowerWaits(trace, c, t), Runs(trace, t));
  }
}
