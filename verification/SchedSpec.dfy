// The scheduler of kernel/src/kernel as a state machine over its queues.
//
// Scheduler.dfy proves that the C code, on real linked lists, takes exactly these steps.
// Threads are an arbitrary type here; every queue is a sequence, head first.
module SchedSpec {
  import opened Options

  const RVR: nat := 300000  // SYSTICK_RVR, cycles per tick

  datatype Class = RealTime | Application | Background | Idle

  datatype Sched<T(==)> = Sched(
    rt: seq<T>, app: seq<T>, bg: seq<T>, sleep: seq<T>, blocked: seq<T>,
    idle: Option<T>, curr: Option<T>,
    threads: seq<T>, cls: map<T, Class>, wake: map<T, nat>, exiting: set<T>,
    tick: nat, alarm: nat, pending: bool)

  ghost function Start<T>(): Sched<T> {
    Sched([], [], [], [], [], None, None, [], map[], map[], {}, 0, 0, false)
  }

  // ---------- sequences ----------

  ghost function IndexOf<T>(q: seq<T>, t: T): (i: nat)
    requires t in q
    ensures i < |q| && q[i] == t && t !in q[..i]
  {
    if q[0] == t then 0 else 1 + IndexOf(q[1..], t)
  }

  ghost function Without<T>(q: seq<T>, t: T): seq<T> {
    if t in q then q[..IndexOf(q, t)] + q[IndexOf(q, t) + 1..] else q
  }

  ghost predicate Distinct<T>(q: seq<T>) {
    forall i, j :: 0 <= i < j < |q| ==> q[i] != q[j]
  }

  // How often `t` occurs in `q`.
  ghost function Occ<T>(q: seq<T>, t: T): nat {
    if q == [] then 0 else (if q[0] == t then 1 else 0) + Occ(q[1..], t)
  }

  lemma {:induction false} OccIn<T>(q: seq<T>, t: T)
    ensures Occ(q, t) > 0 <==> t in q
  {
    if q != [] {
      OccIn(q[1..], t);
      assert q == [q[0]] + q[1..];
    }
  }

  lemma {:induction false} OccConcat<T>(a: seq<T>, b: seq<T>, t: T)
    ensures Occ(a + b, t) == Occ(a, t) + Occ(b, t)
  {
    if a == [] {
      assert a + b == b;
    } else {
      assert (a + b)[1..] == a[1..] + b;
      OccConcat(a[1..], b, t);
    }
  }

  lemma OccAppend<T>(q: seq<T>, c: T, t: T)
    ensures Occ(q + [c], t) == Occ(q, t) + if t == c then 1 else 0
  {
    OccConcat(q, [c], t);
  }

  lemma OccInsert<T>(q: seq<T>, p: nat, c: T, t: T)
    requires p <= |q|
    ensures Occ(q[..p] + [c] + q[p..], t) == Occ(q, t) + if t == c then 1 else 0
  {
    assert q == q[..p] + q[p..];
    OccConcat(q[..p], q[p..], t);
    OccConcat(q[..p] + [c], q[p..], t);
    OccAppend(q[..p], c, t);
  }

  lemma OccWithout<T>(q: seq<T>, c: T, t: T)
    ensures Occ(Without(q, c), t) == Occ(q, t) - if t == c && c in q then 1 else 0
  {
    if c in q {
      var i := IndexOf(q, c);
      var a, b := q[..i], q[i + 1..];
      assert q == (a + [c]) + b;
      OccConcat(a + [c], b, t);
      OccAppend(a, c, t);
      OccConcat(a, b, t);
    }
  }

  lemma WithoutMembers<T>(q: seq<T>, t: T)
    ensures forall u :: u in Without(q, t) ==> u in q
    ensures forall u :: u in q && u != t ==> u in Without(q, t)
  {
    forall u | u in Without(q, t)
      ensures u in q
    {
    }
    forall u | u in q && u != t
      ensures u in Without(q, t)
    {
      OccWithout(q, t, u);
      OccIn(q, u);
      OccIn(Without(q, t), u);
    }
  }

  lemma WithoutDistinct<T>(q: seq<T>, t: T)
    requires Distinct(q)
    ensures Distinct(Without(q, t)) && t !in Without(q, t)
  {
  }

  // ---------- the pieces of a step ----------

  ghost function WakeOf<T>(wake: map<T, nat>, t: T): nat { if t in wake then wake[t] else 0 }

  // The enqueue function of the thread's scheduling class.
  ghost function Enqueue<T>(s: Sched<T>, t: T): Sched<T> {
    if t !in s.cls then s
    else match s.cls[t]
      case RealTime => s.(rt := s.rt + [t])
      case Application => s.(app := s.app + [t])
      case Background => s.(bg := s.bg + [t])
      case Idle => s.(idle := Some(t))
  }

  // tick_to_wake_update
  ghost function Alarm<T>(sleep: seq<T>, wake: map<T, nat>): nat {
    if sleep == [] then 0 else WakeOf(wake, sleep[0])
  }

  ghost predicate AlarmRings<T>(s: Sched<T>) { s.alarm <= s.tick && s.alarm != 0 }

  ghost predicate HeadExpired<T>(s: Sched<T>) {
    AlarmRings(s) && s.sleep != [] && WakeOf(s.wake, s.sleep[0]) < s.tick
  }

  // The head of the sleep queue goes back to its class.
  ghost function WakeHead<T>(s: Sched<T>): Sched<T>
    requires s.sleep != []
  {
    var s1 := Enqueue(s.(sleep := s.sleep[1..]), s.sleep[0]);
    s1.(wake := s1.wake[s.sleep[0] := 0])
  }

  // process_expired_delays. Its loop reads the next link of the thread it has just put at the
  // tail of another queue, so it wakes the head of the sleep queue and no other thread.
  ghost function Expire<T>(s: Sched<T>): Sched<T> {
    if AlarmRings(s) then
      var s1 := if HeadExpired(s) then WakeHead(s) else s;
      s1.(alarm := Alarm(s1.sleep, s1.wake))
    else s
  }

  // The running thread goes back to its class unless it has put itself to sleep.
  ghost function Requeue<T>(s: Sched<T>): Sched<T>
    requires s.curr.Some?
  {
    if WakeOf(s.wake, s.curr.value) == 0 then Enqueue(s, s.curr.value) else s
  }

  // What scheduler_remove_thread leaves of the running thread.
  ghost function Removed<T>(s: Sched<T>, c: T): Sched<T> {
    s.(threads := Without(s.threads, c), rt := Without(s.rt, c), sleep := Without(s.sleep, c),
       cls := s.cls - {c}, wake := s.wake - {c}, exiting := s.exiting - {c}, curr := None)
  }

  // scheduler_remove_thread, for the running thread when an exit is pending.
  ghost function Reap<T>(s: Sched<T>): Sched<T>
    requires s.curr.Some?
  {
    var c := s.curr.value;
    if c in s.exiting then Removed(s, c) else s
  }

  // core_scheduler followed by the context switch.
  ghost function Pick<T>(s: Sched<T>): Sched<T> {
    if s.rt != [] then s.(curr := Some(s.rt[0]), rt := s.rt[1..])
    else if s.app != [] then s.(curr := Some(s.app[0]), app := s.app[1..])
    else if s.bg != [] then s.(curr := Some(s.bg[0]), bg := s.bg[1..])
    else s.(curr := s.idle)
  }

  // Position of a new sleeper: before the first one with a later wake-up time.
  ghost function SleepPos<T>(sleep: seq<T>, wake: map<T, nat>, due: nat): (p: nat)
    ensures p <= |sleep|
    ensures forall j :: 0 <= j < p ==> WakeOf(wake, sleep[j]) <= due
    ensures p < |sleep| ==> WakeOf(wake, sleep[p]) > due
  {
    if sleep == [] || WakeOf(wake, sleep[0]) > due then 0 else 1 + SleepPos(sleep[1..], wake, due)
  }

  // The sleep queue with a new sleeper in its place.
  ghost function SleepInsert<T>(q: seq<T>, wake: map<T, nat>, c: T, due: nat): seq<T> {
    var p := SleepPos(q, wake, due);
    q[..p] + [c] + q[p..]
  }

  // ---------- steps ----------

  datatype Step<T> =
    | Boot(idle: T)              // scheduler_start
    | New(t: T, c: Class)        // new_thread
    | Systick(cvr: nat)          // systick_exception and the context switch it pends
    | Sleep(ms: nat)             // thread_sleep
    | Block(t: T)                // thread_block
    | Unblock(t: T)              // thread_unblock
    | Kill(t: T)                 // kill_thread, or thread_exit of the running thread

  ghost function Runtime(pending: bool, cvr: nat): nat {
    if pending && cvr <= RVR then RVR - cvr else RVR
  }

  // The running thread can be removed: it is REAL_TIME, or it has gone to sleep. ExitSound shows
  // that otherwise it stays on its queue.
  ghost predicate Reapable<T>(s: Sched<T>, c: T) {
    c in s.cls && (s.cls[c] == RealTime || WakeOf(s.wake, c) > 0)
  }

  // What the kernel asks of whoever causes a step. Threads that are blocked are REAL_TIME, and
  // they are not the running one. A tick that finds an exit pending finds a thread it can remove.
  ghost predicate Enabled<T>(s: Sched<T>, step: Step<T>) {
    match step
    case Boot(idle) => s.idle.None? && s.curr.None? && idle !in s.cls
    case New(t, c) => t !in s.cls && c != Idle
    case Systick(cvr) =>
      s.curr.Some? && cvr <= RVR && (s.curr.value in s.exiting ==> Reapable(s, s.curr.value))
    case Sleep(ms) =>
      s.curr.Some? && s.idle != s.curr && WakeOf(s.wake, s.curr.value) == 0 && ms >= 1
    case Block(t) => t in s.cls && s.cls[t] == RealTime && s.curr != Some(t)
    case Unblock(t) => t in s.cls && s.cls[t] == RealTime && s.curr != Some(t)
    case Kill(t) => t in s.cls
  }

  ghost function Created<T>(s: Sched<T>, t: T, c: Class): Sched<T> {
    var s1 := s.(cls := s.cls[t := c], wake := s.wake[t := 0], threads := [t] + s.threads);
    Enqueue(s1, t)
  }

  ghost function Slept<T>(s: Sched<T>, ms: nat): Sched<T>
    requires s.curr.Some?
  {
    var c, due := s.curr.value, s.tick + ms * RVR;
    var wake := s.wake[c := due];
    var sleep := SleepInsert(s.sleep, wake, c, due);
    s.(wake := wake, sleep := sleep, alarm := Alarm(sleep, wake), pending := true)
  }

  ghost function Blocked<T>(s: Sched<T>, t: T): Sched<T> {
    if t in s.blocked then s
    else s.(rt := Without(s.rt, t), sleep := Without(s.sleep, t), blocked := s.blocked + [t])
  }

  ghost function Unblocked<T>(s: Sched<T>, t: T): Sched<T> {
    if t !in s.blocked then s
    else s.(blocked := Without(s.blocked, t), wake := s.wake[t := 0], rt := s.rt + [t])
  }

  ghost function Advanced<T>(s: Sched<T>, cvr: nat): Sched<T> {
    s.(tick := s.tick + Runtime(s.pending, cvr), pending := false)
  }

  // The state core_scheduler picks from.
  ghost function Rescheduled<T>(s: Sched<T>, cvr: nat): Sched<T>
    requires s.curr.Some?
  {
    Reap(Requeue(Expire(Advanced(s, cvr))))
  }

  ghost function Next<T>(s: Sched<T>, step: Step<T>): Sched<T>
    requires Enabled(s, step)
  {
    match step
    case Boot(idle) => Pick(Created(s, idle, Idle).(alarm := 0))
    case New(t, c) => Created(s, t, c)
    case Systick(cvr) => Pick(Rescheduled(s, cvr))
    case Sleep(ms) => Slept(s, ms)
    case Block(t) => Blocked(s, t)
    case Unblock(t) => Unblocked(s, t)
    case Kill(t) => s.(exiting := s.exiting + {t})
  }

  // ---------- the invariant ----------

  // In how many places of the five queues a thread is.
  ghost function Times<T>(s: Sched<T>, t: T): nat {
    Occ(s.rt, t) + Occ(s.app, t) + Occ(s.bg, t) + Occ(s.sleep, t) + Occ(s.blocked, t)
  }

  lemma TimesIn<T>(s: Sched<T>, t: T)
    ensures Occ(s.rt, t) > 0 <==> t in s.rt
    ensures Occ(s.app, t) > 0 <==> t in s.app
    ensures Occ(s.bg, t) > 0 <==> t in s.bg
    ensures Occ(s.sleep, t) > 0 <==> t in s.sleep
    ensures Occ(s.blocked, t) > 0 <==> t in s.blocked
  {
    OccIn(s.rt, t);
    OccIn(s.app, t);
    OccIn(s.bg, t);
    OccIn(s.sleep, t);
    OccIn(s.blocked, t);
  }

  ghost function Only<T>(t: Option<T>): set<T> { if t.Some? then {t.value} else {} }

  // Threads in no queue: the idle thread, and the running thread unless it is going to sleep.
  ghost function Loose<T>(s: Sched<T>): set<T> {
    Only(s.idle) + if s.curr.Some? && WakeOf(s.wake, s.curr.value) > 0 then {} else Only(s.curr)
  }

  ghost predicate Tables<T>(s: Sched<T>) {
    && s.wake.Keys == s.cls.Keys
    && Distinct(s.threads)
    && (forall t :: t in s.threads ==> t in s.cls) && (forall t :: t in s.cls ==> t in s.threads)
    && (forall t :: t in s.exiting ==> t in s.cls)
    && (s.idle.Some? ==> s.idle.value in s.cls)
    && (forall t :: t in s.cls ==> (s.cls[t] == Idle <==> s.idle == Some(t)))
    && (s.curr.Some? ==> s.curr.value in s.cls && s.idle.Some?)
  }

  // Every thread is in exactly one place of exactly one queue, unless it is loose.
  ghost predicate Placed<T>(s: Sched<T>, loose: set<T>) {
    forall t :: t in s.cls ==> Times(s, t) == if t in loose then 0 else 1
  }

  ghost predicate Members<T>(q: seq<T>, s: Sched<T>, c: Class) {
    forall t :: t in q ==> t in s.cls && s.cls[t] == c && WakeOf(s.wake, t) == 0
  }

  // Queues hold threads of their own class; run queues hold threads that are awake.
  ghost predicate Classed<T>(s: Sched<T>) {
    && Members(s.rt, s, RealTime) && Members(s.app, s, Application) && Members(s.bg, s, Background)
    && (forall t :: t in s.sleep ==> t in s.cls && s.cls[t] != Idle && WakeOf(s.wake, t) > 0)
    && (forall t :: t in s.blocked ==> t in s.cls && s.cls[t] == RealTime)
    && (s.idle.Some? ==> WakeOf(s.wake, s.idle.value) == 0)
  }

  ghost predicate Sorted<T>(sleep: seq<T>, wake: map<T, nat>) {
    forall i, j :: 0 <= i < j < |sleep| ==> WakeOf(wake, sleep[i]) <= WakeOf(wake, sleep[j])
  }

  // The sleep queue is in order of wake-up time, and the alarm is set and not late.
  ghost predicate Timed<T>(s: Sched<T>) {
    Sorted(s.sleep, s.wake) && (s.sleep != [] ==> 0 < s.alarm <= WakeOf(s.wake, s.sleep[0]))
  }

  ghost predicate Orderly<T>(s: Sched<T>, loose: set<T>) {
    Tables(s) && Placed(s, loose) && Classed(s) && Timed(s)
  }

  // A running thread that has just gone to sleep is queued, and not due at the next tick.
  ghost predicate CurrOk<T>(s: Sched<T>) {
    s.curr.Some? && WakeOf(s.wake, s.curr.value) > 0 ==>
      s.curr.value in s.sleep && WakeOf(s.wake, s.curr.value) >= s.tick + RVR
  }

  ghost predicate Inv<T>(s: Sched<T>) {
    Orderly(s, Loose(s)) && CurrOk(s) && (s.idle.None? ==> s.sleep == [])
  }

  // ---------- waking a sleeper keeps the queues in order ----------

  lemma EnqueueTimes<T>(s: Sched<T>, t: T, u: T)
    requires t in s.cls && s.cls[t] != Idle
    ensures Times(Enqueue(s, t), u) == Times(s, u) + if u == t then 1 else 0
  {
    OccAppend(s.rt, t, u);
    OccAppend(s.app, t, u);
    OccAppend(s.bg, t, u);
  }

  lemma EnqueueKeeps<T>(s: Sched<T>, t: T)
    ensures var e := Enqueue(s, t);
            && e.sleep == s.sleep && e.wake == s.wake && e.curr == s.curr && e.cls == s.cls && e.tick == s.tick
            && e.blocked == s.blocked && e.threads == s.threads && e.exiting == s.exiting && e.pending == s.pending
            && e.alarm == s.alarm
    ensures t in s.cls && s.cls[t] != Idle ==> Enqueue(s, t).idle == s.idle
  {
  }

  lemma MembersAppend<T>(q: seq<T>, s: Sched<T>, c: Class, t: T)
    requires Members(q, s, c) && t in s.cls && s.cls[t] == c && WakeOf(s.wake, t) == 0
    ensures Members(q + [t], s, c)
  {
  }

  // Members of a queue are members still when threads are added to the tables.
  lemma MembersKept<T>(q: seq<T>, s: Sched<T>, s': Sched<T>, c: Class)
    requires Members(q, s, c)
    requires forall u :: u in s.cls ==> u in s'.cls && s'.cls[u] == s.cls[u] && WakeOf(s'.wake, u) == WakeOf(s.wake, u)
    ensures Members(q, s', c)
  {
  }

  lemma EnqueueTables<T>(s: Sched<T>, t: T)
    requires Tables(s) && t in s.cls && s.cls[t] != Idle
    ensures Tables(Enqueue(s, t))
  {
  }

  lemma EnqueueKeepsClassed<T>(s: Sched<T>, t: T)
    requires Classed(s) && t in s.cls && s.cls[t] != Idle && WakeOf(s.wake, t) == 0
    ensures Classed(Enqueue(s, t))
  {
    hide Members, WakeOf;
    var e := Enqueue(s, t);
    match s.cls[t] {
      case RealTime => MembersAppend(s.rt, s, RealTime, t);
      case Application => MembersAppend(s.app, s, Application, t);
      case Background => MembersAppend(s.bg, s, Background, t);
    }
    MembersKept(e.rt, s, e, RealTime);
    MembersKept(e.app, s, e, Application);
    MembersKept(e.bg, s, e, Background);
  }

  lemma EnqueueClassed<T>(s: Sched<T>, t: T)
    requires Tables(s) && Classed(s) && t in s.cls && s.cls[t] != Idle && WakeOf(s.wake, t) == 0
    ensures Tables(Enqueue(s, t)) && Classed(Enqueue(s, t))
  {
    hide Tables, Classed;
    EnqueueTables(s, t);
    EnqueueKeepsClassed(s, t);
  }

  // Everything the invariant says but for the alarm.
  ghost predicate Shelved<T>(s: Sched<T>, loose: set<T>) {
    Tables(s) && Placed(s, loose) && Classed(s) && Sorted(s.sleep, s.wake)
  }

  // The state in which the head of the sleep queue has left it, awake, for no other queue yet.
  ghost function HeadOut<T>(s: Sched<T>): Sched<T>
    requires s.sleep != []
  {
    s.(sleep := s.sleep[1..], wake := s.wake[s.sleep[0] := 0])
  }

  lemma WakeHeadIs<T>(s: Sched<T>)
    requires s.sleep != []
    ensures WakeHead(s) == Enqueue(HeadOut(s), s.sleep[0])
  {
  }

  lemma HeadOnce<T>(s: Sched<T>, loose: set<T>)
    requires Shelved(s, loose) && s.sleep != []
    ensures s.sleep[0] in s.cls && s.sleep[0] !in s.sleep[1..] && s.sleep[0] !in loose
  {
    var t := s.sleep[0];
    assert t in s.sleep;
    assert Occ(s.sleep, t) == 1 + Occ(s.sleep[1..], t);
    OccIn(s.sleep[1..], t);
    assert Times(s, t) <= 1;
  }

  lemma HeadOutClassed<T>(s: Sched<T>)
    requires Tables(s) && Classed(s) && Sorted(s.sleep, s.wake) && s.sleep != []
    requires s.sleep[0] !in s.sleep[1..]
    ensures var h := HeadOut(s); Tables(h) && Classed(h) && Sorted(h.sleep, h.wake)
  {
    var h, t := HeadOut(s), s.sleep[0];
    assert t in s.cls && h.wake.Keys == s.wake.Keys;
    forall u | u in s.cls
      ensures WakeOf(h.wake, u) == if u == t then 0 else WakeOf(s.wake, u)
    {
    }
    assert forall i :: 0 <= i < |h.sleep| ==> h.sleep[i] == s.sleep[i + 1] && h.sleep[i] != t;
  }

  lemma WakeHeadPlaced<T>(s: Sched<T>, loose: set<T>)
    requires Shelved(s, loose) && s.sleep != []
    ensures Placed(Enqueue(HeadOut(s), s.sleep[0]), loose)
  {
    var h, t := HeadOut(s), s.sleep[0];
    HeadOnce(s, loose);
    assert t in s.sleep;
    EnqueueKeeps(h, t);
    forall u | u in s.cls
      ensures Times(Enqueue(h, t), u) == Times(s, u)
    {
      EnqueueTimes(h, t, u);
    }
  }

  lemma WakeHeadShelved<T>(s: Sched<T>, loose: set<T>)
    requires Shelved(s, loose) && s.sleep != []
    ensures Shelved(WakeHead(s), loose)
  {
    var t := s.sleep[0];
    HeadOnce(s, loose);
    assert t in s.sleep;
    WakeHeadIs(s);
    WakeHeadPlaced(s, loose);
    HeadOutClassed(s);
    EnqueueClassed(HeadOut(s), t);
    EnqueueKeeps(HeadOut(s), t);
  }

  lemma AlarmSet<T>(s: Sched<T>, loose: set<T>)
    requires Shelved(s, loose)
    ensures Orderly(s.(alarm := Alarm(s.sleep, s.wake)), loose)
  {
    var s' := s.(alarm := Alarm(s.sleep, s.wake));
    assert forall t :: t in s.cls ==> Times(s', t) == Times(s, t);
    if s.sleep != [] { assert s.sleep[0] in s.sleep; }
  }

  lemma ExpireOrderly<T>(s: Sched<T>, loose: set<T>)
    requires Orderly(s, loose)
    ensures Orderly(Expire(s), loose)
  {
    if AlarmRings(s) {
      if HeadExpired(s) {
        WakeHeadShelved(s, loose);
        AlarmSet(WakeHead(s), loose);
      } else {
        AlarmSet(s, loose);
      }
    }
  }

  lemma ExpireKeeps<T>(s: Sched<T>)
    requires forall t :: t in s.sleep ==> t in s.cls && s.cls[t] != Idle
    ensures var e := Expire(s);
            && e.curr == s.curr && e.cls == s.cls && e.tick == s.tick && e.idle == s.idle && e.blocked == s.blocked
            && e.threads == s.threads && e.exiting == s.exiting && e.pending == s.pending
    ensures forall t :: t in s.cls && WakeOf(s.wake, t) >= s.tick ==> WakeOf(Expire(s).wake, t) == WakeOf(s.wake, t)
    ensures forall t :: t in s.cls && WakeOf(s.wake, t) == 0 ==> WakeOf(Expire(s).wake, t) == 0
    ensures forall t :: t in s.sleep && WakeOf(s.wake, t) >= s.tick ==> t in Expire(s).sleep
  {
    if HeadExpired(s) {
      assert s.sleep[0] in s.sleep;
      EnqueueKeeps(s.(sleep := s.sleep[1..]), s.sleep[0]);
    }
  }

  // ---------- requeue, reap, pick ----------

  // The running thread's place once it has been put back: on its run queue, on the sleep
  // queue, or the idle slot.
  ghost predicate CurrBack<T>(s: Sched<T>) {
    s.curr.Some? && s.curr.value in s.cls && s.curr.value !in s.blocked
    && (Reapable(s, s.curr.value) ==> s.curr.value in s.rt || s.curr.value in s.sleep)
  }

  lemma RequeuePlaced<T>(s: Sched<T>)
    requires Orderly(s, Loose(s)) && s.curr.Some? && s.curr.value in s.cls && s.cls[s.curr.value] != Idle
    requires WakeOf(s.wake, s.curr.value) == 0
    ensures Placed(Enqueue(s, s.curr.value), Only(s.idle))
  {
    var c := s.curr.value;
    EnqueueKeeps(s, c);
    forall u | u in s.cls
      ensures Times(Enqueue(s, c), u) == Times(s, u) + if u == c then 1 else 0
    {
      EnqueueTimes(s, c, u);
    }
  }

  lemma RequeueOrderly<T>(s: Sched<T>)
    requires Orderly(s, Loose(s)) && s.curr.Some?
    requires WakeOf(s.wake, s.curr.value) > 0 ==> s.curr.value in s.sleep
    ensures Orderly(Requeue(s), Only(s.idle)) && CurrBack(Requeue(s))
    ensures Requeue(s).idle == s.idle && Requeue(s).curr == s.curr
  {
    var c := s.curr.value;
    assert Times(s, c) <= 1;
    TimesIn(s, c);
    if WakeOf(s.wake, c) > 0 {
      assert Loose(s) == Only(s.idle);
    } else if s.cls[c] == Idle {
      assert Loose(s) == Only(s.idle) && Requeue(s) == s;
    } else {
      RequeuePlaced(s);
      EnqueueClassed(s, c);
      assert s.cls[c] == RealTime ==> Requeue(s).rt[|s.rt|] == c;
      EnqueueKeeps(s, c);
    }
  }

  lemma RequeueReapable<T>(s: Sched<T>)
    requires s.curr.Some?
    ensures Requeue(s).exiting == s.exiting
    ensures Reapable(Requeue(s), s.curr.value) == Reapable(s, s.curr.value)
  {
    EnqueueKeeps(s, s.curr.value);
  }

  lemma RemovedTimes<T>(s: Sched<T>, c: T, loose: set<T>)
    requires Placed(s, loose) && c in s.cls && c !in loose && (c in s.rt || c in s.sleep)
    ensures forall u :: u in s.cls && u != c ==> Times(Removed(s, c), u) == Times(s, u)
    ensures Times(Removed(s, c), c) == 0
  {
    forall u | u in s.cls
      ensures Times(Removed(s, c), u) == Times(s, u) - if u == c then 1 else 0
    {
      OccWithout(s.rt, c, u);
      OccWithout(s.sleep, c, u);
      assert Times(s, c) == 1;
    }
  }

  lemma WithoutPositions<T>(q: seq<T>, t: T)
    ensures |Without(q, t)| <= |q|
    ensures var w, k := Without(q, t), if t in q then IndexOf(q, t) else |q|;
            forall i :: 0 <= i < |w| ==> (if i < k then i else i + 1) < |q| && w[i] == q[if i < k then i else i + 1]
  {
    hide IndexOf;
    if t in q { RemovePositions(q, IndexOf(q, t)); }
  }

  lemma RemovePositions<T>(q: seq<T>, k: nat)
    requires k < |q|
    ensures var w := q[..k] + q[k + 1..];
            |w| < |q| && forall i :: 0 <= i < |w| ==> w[i] == q[if i < k then i else i + 1]
  {
  }

  lemma {:induction false} SubqueueSorted<T>(q: seq<T>, t: T, wake: map<T, nat>, wake': map<T, nat>)
    requires Sorted(q, wake) && t !in Without(q, t)
    requires forall u :: u in q && u != t ==> WakeOf(wake', u) == WakeOf(wake, u)
    ensures Sorted(Without(q, t), wake')
    ensures Without(q, t) != [] ==> WakeOf(wake, q[0]) <= WakeOf(wake', Without(q, t)[0])
  {
    var w, k := Without(q, t), if t in q then IndexOf(q, t) else |q|;
    WithoutPositions(q, t);
    forall i | 0 <= i < |w|
      ensures WakeOf(wake', w[i]) == WakeOf(wake, q[if i < k then i else i + 1])
    {
      assert w[i] in w && w[i] in q;
    }
  }

  // Dropping a sleeper leaves the others in order, and the alarm early enough.
  lemma SubqueueTimed<T>(s: Sched<T>, t: T, s': Sched<T>)
    requires Timed(s) && (forall u :: u in s.sleep && u != t ==> WakeOf(s'.wake, u) == WakeOf(s.wake, u))
    requires t !in Without(s.sleep, t) && s'.sleep == Without(s.sleep, t) && s'.alarm == s.alarm
    ensures Timed(s')
  {
    SubqueueSorted(s.sleep, t, s.wake, s'.wake);
    WithoutPositions(s.sleep, t);
  }

  lemma RemovedTables<T>(s: Sched<T>, c: T)
    requires Tables(s) && c in s.cls && s.cls[c] != Idle
    ensures Tables(Removed(s, c))
  {
    WithoutMembers(s.threads, c);
    WithoutDistinct(s.threads, c);
  }

  lemma RemovedClassed<T>(s: Sched<T>, c: T)
    requires Tables(s) && Classed(s) && c in s.cls && s.cls[c] != Idle && Times(Removed(s, c), c) == 0
    ensures Classed(Removed(s, c))
  {
    var s' := Removed(s, c);
    WithoutMembers(s.rt, c);
    WithoutMembers(s.sleep, c);
    TimesIn(s', c);
    RemovedWake(s, c);
    assert Members(s'.rt, s', RealTime);
    assert Members(s'.app, s', Application);
    assert Members(s'.bg, s', Background);
  }

  lemma RemovedWake<T>(s: Sched<T>, c: T)
    ensures forall u :: u != c ==> WakeOf(Removed(s, c).wake, u) == WakeOf(s.wake, u)
  {
  }

  lemma RemovedOrderly<T>(s: Sched<T>, c: T)
    requires Orderly(s, Only(s.idle)) && c in s.cls && s.cls[c] != Idle && (c in s.rt || c in s.sleep)
    ensures Orderly(Removed(s, c), Only(s.idle))
    ensures Times(Removed(s, c), c) == 0
  {
    RemovedTimes(s, c, Only(s.idle));
    RemovedTables(s, c);
    RemovedClassed(s, c);
    RemovedWake(s, c);
    TimesIn(Removed(s, c), c);
    SubqueueTimed(s, c, Removed(s, c));
  }

  lemma ReapOrderly<T>(s: Sched<T>)
    requires Orderly(s, Only(s.idle)) && CurrBack(s) && (s.curr.value in s.exiting ==> Reapable(s, s.curr.value))
    ensures Orderly(Reap(s), Only(s.idle)) && Reap(s).idle == s.idle
  {
    if s.curr.value in s.exiting {
      RemovedOrderly(s, s.curr.value);
      assert Reap(s) == Removed(s, s.curr.value);
    }
  }

  lemma PickTimes<T>(s: Sched<T>, u: T)
    requires s.idle.Some?
    ensures Times(s, u) == Times(Pick(s), u) +
              if Pick(s).curr == Some(u) && (s.rt != [] || s.app != [] || s.bg != []) then 1 else 0
  {
  }

  lemma PickClassed<T>(s: Sched<T>)
    requires Tables(s) && Classed(s) && s.idle.Some?
    ensures Pick(s).curr.Some? && Pick(s).curr.value in s.cls && WakeOf(s.wake, Pick(s).curr.value) == 0
    ensures Tables(Pick(s)) && Classed(Pick(s))
  {
    if s.rt != [] { assert s.rt[0] in s.rt; }
    else if s.app != [] { assert s.app[0] in s.app; }
    else if s.bg != [] { assert s.bg[0] in s.bg; }
  }

  lemma PickPlaced<T>(s: Sched<T>)
    requires Tables(s) && Placed(s, Only(s.idle)) && Classed(s) && s.idle.Some?
    ensures Placed(Pick(s), Loose(Pick(s)))
  {
    var p := Pick(s);
    PickClassed(s);
    forall u | u in s.cls
      ensures Times(p, u) == if u in Loose(p) then 0 else 1
    {
      PickTimes(s, u);
      assert u in Loose(p) <==> s.idle == Some(u) || p.curr == Some(u);
      if p.curr == Some(u) && s.idle != Some(u) { NotFromIdle(s); }
    }
  }

  lemma NotFromIdle<T>(s: Sched<T>)
    requires Tables(s) && Classed(s) && s.idle.Some? && Pick(s).curr != s.idle
    ensures s.rt != [] || s.app != [] || s.bg != []
  {
  }

  lemma PickKeeps<T>(s: Sched<T>)
    ensures var p := Pick(s); p.sleep == s.sleep && p.wake == s.wake && p.alarm == s.alarm && p.cls == s.cls
  {
  }

  lemma PickOrderly<T>(s: Sched<T>)
    requires Orderly(s, Only(s.idle)) && s.idle.Some?
    ensures Inv(Pick(s))
  {
    PickClassed(s);
    PickPlaced(s);
    PickKeeps(s);
  }

  // ---------- every step keeps the invariant ----------

  lemma SystickInv<T>(s: Sched<T>, cvr: nat)
    requires Inv(s) && Enabled(s, Step.Systick(cvr))
    ensures Orderly(Rescheduled(s, cvr), Only(s.idle)) && Rescheduled(s, cvr).idle == s.idle
    ensures Inv(Next(s, Step.Systick(cvr)))
  {
    hide Inv, Orderly, Advanced, Expire, Requeue, Reap, Pick, CurrBack, WakeOf;
    var e := Expire(Advanced(s, cvr));
    ExpiredOrderly(s, cvr);
    RequeueOrderly(e);
    RequeueReapable(e);
    ReapOrderly(Requeue(e));
    PickOrderly(Rescheduled(s, cvr));
  }

  lemma ExpiredOrderly<T>(s: Sched<T>, cvr: nat)
    requires Inv(s) && Enabled(s, Step.Systick(cvr))
    ensures var e := Expire(Advanced(s, cvr));
            && Orderly(e, Loose(e)) && e.curr == s.curr && e.idle == s.idle && e.idle.Some?
            && (WakeOf(e.wake, e.curr.value) > 0 ==> e.curr.value in e.sleep)
            && (e.curr.value in e.exiting ==> Reapable(e, e.curr.value))
  {
    AdvancedOrderly(s, cvr);
    ExpireOrderly(Advanced(s, cvr), Loose(s));
    ExpiredCurr(s, cvr);
  }

  lemma AdvancedOrderly<T>(s: Sched<T>, cvr: nat)
    requires Inv(s)
    ensures Orderly(Advanced(s, cvr), Loose(s))
  {
    assert forall t :: t in s.cls ==> Times(Advanced(s, cvr), t) == Times(s, t);
  }

  lemma ExpiredCurr<T>(s: Sched<T>, cvr: nat)
    requires Tables(s) && Classed(s) && CurrOk(s) && Enabled(s, Step.Systick(cvr))
    ensures var e := Expire(Advanced(s, cvr));
            && Loose(e) == Loose(s) && e.curr == s.curr && e.idle == s.idle && e.idle.Some?
            && (WakeOf(e.wake, e.curr.value) > 0 ==> e.curr.value in e.sleep)
            && (e.curr.value in e.exiting ==> Reapable(e, e.curr.value))
  {
    ExpireKeeps(Advanced(s, cvr));
  }

  lemma CreatedTables<T>(s: Sched<T>, t: T, c: Class)
    requires Tables(s) && t !in s.cls && (c == Idle ==> s.idle.None? && s.curr.None?)
    ensures Tables(Created(s, t, c))
  {
    hide WakeOf;
  }

  // The tables with a new thread that is on no queue yet.
  lemma TabledClassed<T>(s: Sched<T>, t: T, c: Class, n: Sched<T>)
    requires Tables(s) && Classed(s) && t !in s.cls
    requires n == s.(cls := s.cls[t := c], wake := s.wake[t := 0], threads := [t] + s.threads)
    ensures Classed(n)
  {
    hide Members;
    MembersKept(s.rt, s, n, RealTime);
    MembersKept(s.app, s, n, Application);
    MembersKept(s.bg, s, n, Background);
  }

  lemma CreatedClassed<T>(s: Sched<T>, t: T, c: Class)
    requires Tables(s) && Classed(s) && t !in s.cls
    ensures Classed(Created(s, t, c))
  {
    hide Members, Tables;
    var n := s.(cls := s.cls[t := c], wake := s.wake[t := 0], threads := [t] + s.threads);
    TabledClassed(s, t, c, n);
    if c == Idle {
      IdleClassed(n, t);
    } else {
      EnqueueKeepsClassed(n, t);
    }
  }

  lemma IdleClassed<T>(s: Sched<T>, t: T)
    requires Classed(s) && WakeOf(s.wake, t) == 0
    ensures Classed(s.(idle := Some(t)))
  {
    hide Members;
    var n := s.(idle := Some(t));
    MembersKept(s.rt, s, n, RealTime);
    MembersKept(s.app, s, n, Application);
    MembersKept(s.bg, s, n, Background);
  }

  lemma CreatedTimes<T>(s: Sched<T>, t: T, c: Class, u: T)
    ensures Times(Created(s, t, c), u) == Times(s, u) + if u == t && c != Idle then 1 else 0
  {
    var s1 := s.(cls := s.cls[t := c], wake := s.wake[t := 0], threads := [t] + s.threads);
    assert Times(s1, u) == Times(s, u);
    if c != Idle { EnqueueTimes(s1, t, u); }
  }

  lemma Unqueued<T>(s: Sched<T>, t: T)
    requires Inv(s) && t !in s.cls
    ensures Times(s, t) == 0 && t !in Loose(s)
  {
    TimesIn(s, t);
  }

  lemma CreatedPlaced<T>(s: Sched<T>, t: T, c: Class)
    requires Inv(s) && t !in s.cls
    ensures Placed(Created(s, t, c), Loose(s) + if c == Idle then {t} else {})
  {
    CreatedKeeps(s, t, c);
    Unqueued(s, t);
    forall u | u in s.cls || u == t
      ensures Times(Created(s, t, c), u)
              == (if u in s.cls then Times(s, u) else 0) + if u == t && c != Idle then 1 else 0
    {
      CreatedTimes(s, t, c, u);
    }
  }

  lemma CreatedKeeps<T>(s: Sched<T>, t: T, c: Class)
    ensures var n := Created(s, t, c);
            && n.curr == s.curr && n.idle == (if c == Idle then Some(t) else s.idle) && n.alarm == s.alarm
            && n.wake == s.wake[t := 0] && n.sleep == s.sleep && n.tick == s.tick && n.cls == s.cls[t := c]
  {
  }

  lemma CreatedTimed<T>(s: Sched<T>, t: T, c: Class)
    requires Timed(s) && t !in s.sleep
    ensures Timed(Created(s, t, c))
  {
    CreatedKeeps(s, t, c);
    assert forall i :: 0 <= i < |s.sleep| ==> s.sleep[i] != t;
  }

  lemma CreatedOrderly<T>(s: Sched<T>, t: T, c: Class)
    requires Inv(s) && t !in s.cls && (c == Idle ==> s.idle.None? && s.curr.None?)
    ensures Orderly(Created(s, t, c), Loose(s) + if c == Idle then {t} else {})
  {
    CreatedTables(s, t, c);
    CreatedClassed(s, t, c);
    CreatedPlaced(s, t, c);
    CreatedTimed(s, t, c);
  }

  lemma SortedInsert<T>(q: seq<T>, wake: map<T, nat>, c: T, due: nat, p: nat)
    requires Sorted(q, wake) && c !in q && p <= |q|
    requires forall j :: 0 <= j < p ==> WakeOf(wake, q[j]) <= due
    requires p < |q| ==> WakeOf(wake, q[p]) >= due
    ensures Sorted(q[..p] + [c] + q[p..], wake[c := due])
  {
    var r := q[..p] + [c] + q[p..];
    forall i | 0 <= i < |r|
      ensures WakeOf(wake[c := due], r[i])
              == if i < p then WakeOf(wake, q[i]) else if i == p then due else WakeOf(wake, q[i - 1])
    {
    }
    assert forall j :: p <= j < |q| ==> WakeOf(wake, q[j]) >= due;
  }

  lemma SleepInsertSorted<T>(q: seq<T>, wake: map<T, nat>, c: T, due: nat)
    requires Sorted(q, wake) && c !in q
    ensures Sorted(SleepInsert(q, wake[c := due], c, due), wake[c := due])
  {
    var p := SleepPos(q, wake[c := due], due);
    forall j | 0 <= j < |q|
      ensures WakeOf(wake[c := due], q[j]) == WakeOf(wake, q[j])
    {
    }
    SortedInsert(q, wake, c, due, p);
  }

  lemma SleepInsertMembers<T>(q: seq<T>, wake: map<T, nat>, c: T, due: nat)
    ensures var r := SleepInsert(q, wake, c, due);
            && r != [] && c in r && (forall u :: u in q ==> u in r) && (forall u :: u in r ==> u in q || u == c)
  {
    var p := SleepPos(q, wake, due);
    var r := SleepInsert(q, wake, c, due);
    assert r[p] == c;
    assert q == q[..p] + q[p..];
  }

  lemma SleepInsertOcc<T>(q: seq<T>, wake: map<T, nat>, c: T, due: nat, u: T)
    ensures Occ(SleepInsert(q, wake, c, due), u) == Occ(q, u) + if u == c then 1 else 0
  {
    OccInsert(q, SleepPos(q, wake, due), c, u);
  }

  lemma SleepInsertHead<T>(q: seq<T>, wake: map<T, nat>, c: T, due: nat)
    requires due > 0 && forall u :: u in q ==> WakeOf(wake, u) > 0
    ensures var r := SleepInsert(q, wake[c := due], c, due); r != [] && WakeOf(wake[c := due], r[0]) > 0
  {
    var r := SleepInsert(q, wake[c := due], c, due);
    SleepInsertMembers(q, wake[c := due], c, due);
    assert r[0] in r;
  }

  lemma SleptTimed<T>(s: Sched<T>, ms: nat)
    requires Timed(s) && (forall u :: u in s.sleep ==> WakeOf(s.wake, u) > 0)
    requires s.curr.Some? && s.curr.value !in s.sleep && ms >= 1
    ensures Timed(Slept(s, ms))
  {
    hide WakeOf, SleepPos, Sorted, Alarm, SleepInsert;
    var due, s' := s.tick + ms * RVR, Slept(s, ms);
    SleepInsertSorted(s.sleep, s.wake, s.curr.value, due);
    SleepInsertHead(s.sleep, s.wake, s.curr.value, due);
    AlarmTimed(s');
  }

  lemma AlarmTimed<T>(s: Sched<T>)
    requires Sorted(s.sleep, s.wake) && s.sleep != [] && WakeOf(s.wake, s.sleep[0]) > 0
    requires s.alarm == Alarm(s.sleep, s.wake)
    ensures Timed(s)
  {
  }

  lemma SleptPlaced<T>(s: Sched<T>, ms: nat)
    requires Placed(s, Loose(s)) && s.curr.Some? && s.curr.value in s.cls && WakeOf(s.wake, s.curr.value) == 0
    requires s.curr != s.idle && ms >= 1
    ensures s.curr.value !in s.sleep && Placed(Slept(s, ms), Only(s.idle))
  {
    var c := s.curr.value;
    assert Times(s, c) == 0;
    TimesIn(s, c);
    forall u | u in s.cls
      ensures Times(Slept(s, ms), u) == Times(s, u) + if u == c then 1 else 0
    {
      SleepInsertOcc(s.sleep, s.wake[c := s.tick + ms * RVR], c, s.tick + ms * RVR, u);
    }
  }

  lemma SleptMembers<T>(s: Sched<T>, ms: nat)
    requires s.curr.Some?
    ensures var s' := Slept(s, ms);
            && s.curr.value in s'.sleep && (forall u :: u in s'.sleep ==> u in s.sleep || u == s.curr.value)
            && (forall u :: u in s.wake && u != s.curr.value ==> WakeOf(s'.wake, u) == WakeOf(s.wake, u))
            && WakeOf(s'.wake, s.curr.value) == s.tick + ms * RVR
  {
    SleepInsertMembers(s.sleep, Slept(s, ms).wake, s.curr.value, s.tick + ms * RVR);
  }

  lemma SleptClassed<T>(s: Sched<T>, ms: nat)
    requires Tables(s) && Classed(s) && s.curr.Some? && s.idle != s.curr && ms >= 1 && Times(s, s.curr.value) == 0
    ensures Tables(Slept(s, ms)) && Classed(Slept(s, ms))
  {
    SleptMembers(s, ms);
    TimesIn(s, s.curr.value);
  }

  lemma SleptInv<T>(s: Sched<T>, ms: nat)
    requires Inv(s) && Enabled(s, Step.Sleep(ms))
    ensures Inv(Slept(s, ms))
  {
    hide Enqueue, Occ, WakeOf;
    SleptPlaced(s, ms);
    SleptTimed(s, ms);
    SleptClassed(s, ms);
    SleptMembers(s, ms);
    assert Loose(Slept(s, ms)) == Only(s.idle);
  }

  lemma BlockedPlaced<T>(s: Sched<T>, t: T)
    requires Placed(s, Loose(s)) && t in s.cls && t !in Loose(s) && t !in s.blocked && (t in s.rt || t in s.sleep)
    ensures Placed(Blocked(s, t), Loose(s))
  {
    assert Times(s, t) == 1;
    forall u | u in s.cls
      ensures Times(Blocked(s, t), u) == Times(s, u)
    {
      OccWithout(s.rt, t, u);
      OccWithout(s.sleep, t, u);
      OccAppend(s.blocked, t, u);
    }
  }

  lemma BlockedClassed<T>(s: Sched<T>, t: T)
    requires Tables(s) && Classed(s) && t in s.cls && s.cls[t] == RealTime
    ensures Tables(Blocked(s, t)) && Classed(Blocked(s, t))
  {
    WithoutMembers(s.rt, t);
    WithoutMembers(s.sleep, t);
  }

  lemma BlockedOnce<T>(s: Sched<T>, t: T)
    requires Times(s, t) == 1
    ensures t !in Without(s.sleep, t)
  {
    OccWithout(s.sleep, t, t);
    OccIn(s.sleep, t);
    OccIn(Without(s.sleep, t), t);
  }

  // A thread that may be blocked is on the real-time run queue, asleep, or blocked already.
  lemma BlockableWhere<T>(s: Sched<T>, t: T)
    requires Inv(s) && t in s.cls && s.cls[t] == RealTime && s.curr != Some(t)
    ensures t !in Loose(s) && Times(s, t) == 1 && (t in s.rt || t in s.sleep || t in s.blocked)
  {
    assert Times(s, t) == 1;
    TimesIn(s, t);
  }

  lemma BlockedInv<T>(s: Sched<T>, t: T)
    requires Inv(s) && Enabled(s, Step.Block(t))
    ensures Inv(Blocked(s, t))
  {
    BlockableWhere(s, t);
    if t !in s.blocked {
      BlockedPlaced(s, t);
      BlockedClassed(s, t);
      BlockedOnce(s, t);
      SubqueueTimed(s, t, Blocked(s, t));
      WithoutMembers(s.sleep, t);
    }
  }

  lemma UnblockedPlaced<T>(s: Sched<T>, t: T)
    requires Placed(s, Loose(s)) && t in s.blocked
    ensures Placed(Unblocked(s, t), Loose(s))
  {
    forall u | u in s.cls
      ensures Times(Unblocked(s, t), u) == Times(s, u)
    {
      OccWithout(s.blocked, t, u);
      OccAppend(s.rt, t, u);
    }
  }

  lemma UnblockedWake<T>(s: Sched<T>, t: T)
    requires Tables(s) && t in s.cls
    ensures forall u :: u in s.cls && u != t ==> WakeOf(Unblocked(s, t).wake, u) == WakeOf(s.wake, u)
    ensures t in s.blocked ==> WakeOf(Unblocked(s, t).wake, t) == 0
    ensures Tables(Unblocked(s, t))
  {
  }

  lemma UnblockedClassed<T>(s: Sched<T>, t: T)
    requires Tables(s) && Classed(s) && t in s.cls && s.cls[t] == RealTime && t !in s.sleep && t in s.blocked
    ensures Classed(Unblocked(s, t))
  {
    WithoutMembers(s.blocked, t);
    UnblockedWake(s, t);
    var s' := Unblocked(s, t);
    assert Members(s'.rt, s', RealTime);
    assert Members(s'.app, s', Application) && Members(s'.bg, s', Background);
  }

  lemma UnblockedTimed<T>(s: Sched<T>, t: T)
    requires Timed(s) && t !in s.sleep
    ensures Timed(Unblocked(s, t))
  {
    assert forall i :: 0 <= i < |s.sleep| ==> s.sleep[i] != t;
  }

  lemma UnblockedInv<T>(s: Sched<T>, t: T)
    requires Inv(s) && Enabled(s, Step.Unblock(t))
    ensures Inv(Unblocked(s, t))
  {
    if t in s.blocked {
      assert Times(s, t) <= 1;
      TimesIn(s, t);
      UnblockedPlaced(s, t);
      UnblockedWake(s, t);
      UnblockedClassed(s, t);
      UnblockedTimed(s, t);
    }
  }

  // In every reachable state each live thread is in exactly one place.
  lemma NextInv<T>(s: Sched<T>, step: Step<T>)
    requires Inv(s) && Enabled(s, step)
    ensures Inv(Next(s, step))
  {
    hide Inv, Created, Slept, Blocked, Unblocked, Pick, Rescheduled, WakeOf;
    match step
    case Boot(idle) => BootInv(s, idle);
    case New(t, c) => NewInv(s, t, c);
    case Systick(cvr) => SystickInv(s, cvr);
    case Sleep(ms) => SleptInv(s, ms);
    case Block(t) => BlockedInv(s, t);
    case Unblock(t) => UnblockedInv(s, t);
    case Kill(t) => KilledInv(s, t);
  }

  lemma KilledInv<T>(s: Sched<T>, t: T)
    requires Inv(s) && Enabled(s, Step.Kill(t))
    ensures Inv(s.(exiting := s.exiting + {t}))
  {
    var n := s.(exiting := s.exiting + {t});
    assert forall u :: u in s.cls ==> Times(n, u) == Times(s, u);
  }

  lemma NewInv<T>(s: Sched<T>, t: T, c: Class)
    requires Inv(s) && Enabled(s, Step.New(t, c))
    ensures Inv(Created(s, t, c))
  {
    hide Tables;
    CreatedOrderly(s, t, c);
    CreatedKeeps(s, t, c);
    assert Loose(Created(s, t, c)) == Loose(s);
  }

  // new_thread takes any class. The invariant survives it exactly unless it makes a second idle
  // thread, which takes the slot of the first.
  lemma CreatedExactly<T>(s: Sched<T>, t: T, c: Class)
    requires Inv(s) && t !in s.cls
    ensures Inv(Created(s, t, c)) <==> c != Idle || s.idle.None?
  {
    hide Tables;
    CreatedKeeps(s, t, c);
    if c != Idle {
      NewInv(s, t, c);
    } else if s.idle.None? {
      FirstIdle(s, t);
    } else {
      SecondIdle(s, t);
    }
  }

  lemma FirstIdle<T>(s: Sched<T>, t: T)
    requires Inv(s) && t !in s.cls && s.idle.None?
    ensures Inv(Created(s, t, Idle))
  {
    CreatedOrderly(s, t, Idle);
    CreatedKeeps(s, t, Idle);
    assert Loose(Created(s, t, Idle)) == Loose(s) + {t};
  }

  lemma SecondIdle<T>(s: Sched<T>, t: T)
    requires Tables(s) && t !in s.cls && s.idle.Some?
    ensures !Tables(Created(s, t, Idle))
  {
    CreatedKeeps(s, t, Idle);
    var n := Created(s, t, Idle);
    assert n.cls[s.idle.value] == Idle && n.idle == Some(t);
  }

  lemma BootInv<T>(s: Sched<T>, idle: T)
    requires Inv(s) && Enabled(s, Step.Boot(idle))
    ensures Inv(Next(s, Step.Boot(idle)))
  {
    CreatedOrderly(s, idle, Idle);
    CreatedKeeps(s, idle, Idle);
    var n := Created(s, idle, Idle);
    assert Loose(s) + {idle} == Only(n.idle);
    var n' := n.(alarm := 0);
    assert Orderly(n', Only(n.idle)) by { assert forall u :: u in n.cls ==> Times(n', u) == Times(n, u); }
    PickOrderly(n');
  }
}
