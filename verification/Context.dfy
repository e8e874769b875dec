// The context switch: kernel/src/kernel/context.s and stack_setup of kernel/src/kernel/thread.c.
//
// Memory is word addressed. A thread is the address of its control block, whose first word is
// the saved stack pointer; its stack follows the block.
module ContextSwitch {
  import opened Options

  type Word = x: int | 0 <= x < 0x1_0000_0000

  const TCB_WORDS: nat := 30          // sizeof(struct thread) / 4
  const FILL: Word := 0xCAFECAFE
  const XPSR: Word := 0x1000000
  const CONTEXT: nat := 16            // words saved per thread: r4-r11 and the exception frame
  const INITIAL: nat := 17            // words stack_setup needs: a context and the padding

  // r holds r4..r11; h holds what the hardware stacks: r0, r1, r2, r3, r12, lr, pc, xpsr.
  // blocks gives the stack size of every live thread.
  datatype Machine = Machine(
    mem: seq<Word>, r: seq<Word>, h: seq<Word>, psp: nat, curr: Option<nat>, blocks: map<nat, nat>)

  // All that a thread can observe of itself: its registers, its stack pointer and its stack.
  datatype Ctx = Ctx(r: seq<Word>, h: seq<Word>, psp: nat, stack: seq<Word>)

  function Base(t: nat): nat { t + TCB_WORDS }

  function Top(t: nat, size: nat): nat { t + TCB_WORDS + size }

  ghost function Write(mem: seq<Word>, a: nat, ws: seq<Word>): (m: seq<Word>)
    requires a + |ws| <= |mem|
    ensures |m| == |mem| && m[a..a + |ws|] == ws
    ensures forall i :: 0 <= i < |m| ==> m[i] == if a <= i < a + |ws| then ws[i - a] else mem[i]
  {
    mem[..a] + ws + mem[a + |ws|..]
  }

  // ---------- what a state must satisfy ----------

  ghost predicate Apart(blocks: map<nat, nat>, t: nat, u: nat)
    requires t in blocks && u in blocks
  {
    Top(t, blocks[t]) <= u || Top(u, blocks[u]) <= t
  }

  // Blocks lie in memory and do not overlap, as the heap hands them out.
  ghost predicate Laid(blocks: map<nat, nat>, words: nat) {
    && words <= 0x1_0000_0000
    && (forall t :: t in blocks ==> Top(t, blocks[t]) <= words)
    && (forall t, u :: t in blocks && u in blocks && t != u ==> Apart(blocks, t, u))
  }

  // The saved stack pointer of a thread leaves room for its context on its own stack.
  ghost predicate Parked(mem: seq<Word>, t: nat, size: nat) {
    Top(t, size) <= |mem| && Base(t) <= mem[t] && mem[t] + CONTEXT <= Top(t, size)
  }

  // A running thread leaves room on its stack for its context.
  ghost predicate Roomy(t: nat, size: nat, psp: nat) {
    Base(t) + CONTEXT <= psp <= Top(t, size)
  }

  ghost predicate Inv(s: Machine) {
    && Laid(s.blocks, |s.mem|) && |s.r| == 8 && |s.h| == 8
    && (s.curr.Some? ==> s.curr.value in s.blocks && Roomy(s.curr.value, s.blocks[s.curr.value], s.psp))
    && (forall t :: t in s.blocks && s.curr != Some(t) ==> Parked(s.mem, t, s.blocks[t]))
  }

  // ---------- contexts ----------

  ghost function LiveCtx(s: Machine): Ctx
    requires Inv(s) && s.curr.Some?
  {
    Ctx(s.r, s.h, s.psp, s.mem[s.psp..Top(s.curr.value, s.blocks[s.curr.value])])
  }

  ghost function SavedCtx(mem: seq<Word>, t: nat, size: nat): Ctx
    requires Parked(mem, t, size)
  {
    var sp: nat := mem[t];
    Ctx(mem[sp..sp + 8], mem[sp + 8..sp + 16], sp + CONTEXT, mem[sp + CONTEXT..Top(t, size)])
  }

  // ---------- the pieces of a switch ----------

  // Exception entry: the hardware stacks its frame.
  ghost function Entered(s: Machine): Machine
    requires 8 <= s.psp <= |s.mem| && |s.h| == 8
  {
    s.(mem := Write(s.mem, s.psp - 8, s.h), psp := s.psp - 8)
  }

  // pendsv_exception, first half: r4-r11 and the stack pointer of the running thread.
  ghost function Stored(s: Machine): Machine
    requires s.curr.Some? && 8 <= s.psp <= |s.mem| <= 0x1_0000_0000 && |s.r| == 8 && s.curr.value < |s.mem|
  {
    s.(mem := Write(Write(s.mem, s.psp - 8, s.r), s.curr.value, [s.psp - 8]), psp := s.psp - 8)
  }

  // pendsv_exception from _new_thread on.
  ghost function Loaded(s: Machine, next: nat): Machine
    requires next < |s.mem| && s.mem[next] + 8 <= |s.mem|
  {
    var sp: nat := s.mem[next];
    s.(curr := Some(next), r := s.mem[sp..sp + 8], psp := sp + 8)
  }

  // Exception return: the hardware unstacks its frame.
  ghost function Returned(s: Machine): Machine
    requires s.psp + 8 <= |s.mem|
  {
    s.(h := s.mem[s.psp..s.psp + 8], psp := s.psp + 8)
  }

  // The state in which the running thread has been put away, or has been removed.
  ghost function Away(s: Machine, exit: bool): Machine
    requires Inv(s) && s.curr.Some?
  {
    var e := Entered(s);
    if exit then e.(blocks := e.blocks - {s.curr.value}, curr := None) else Stored(e)
  }

  lemma StoredSaves(s: Machine)
    requires Inv(s) && s.curr.Some?
    ensures var c, a := s.curr.value, Away(s, false);
            && |a.mem| == |s.mem| && a.blocks == s.blocks && a.mem[c] == s.psp - CONTEXT
            && Parked(a.mem, c, a.blocks[c]) && SavedCtx(a.mem, c, a.blocks[c]) == LiveCtx(s)
  {
    var c, a := s.curr.value, Away(s, false);
    var sp := s.psp - CONTEXT;
    assert a.mem[sp..sp + 8] == s.r;
    assert a.mem[sp + 8..sp + 16] == s.h;
    assert a.mem[s.psp..Top(c, s.blocks[c])] == s.mem[s.psp..Top(c, s.blocks[c])];
  }

  // Only the running thread's own block is written.
  lemma AwayElsewhere(s: Machine, exit: bool, t: nat)
    requires Inv(s) && s.curr.Some? && t in s.blocks && t != s.curr.value
    ensures var a := Away(s, exit);
            && |a.mem| == |s.mem| && t in a.blocks && a.blocks[t] == s.blocks[t]
            && Parked(a.mem, t, a.blocks[t]) && SavedCtx(a.mem, t, a.blocks[t]) == SavedCtx(s.mem, t, s.blocks[t])
  {
    var c, a := s.curr.value, Away(s, exit);
    assert Apart(s.blocks, t, c);
    SameBlock(s, a, t);
  }

  // A thread whose saved stack pointer and stack are as before has the context it had; the other
  // words of its control block are the scheduler's.
  lemma SameBlock(s: Machine, s': Machine, t: nat)
    requires Laid(s.blocks, |s.mem|) && t in s.blocks && t in s'.blocks && s'.blocks[t] == s.blocks[t]
    requires |s'.mem| == |s.mem| && Parked(s.mem, t, s.blocks[t])
    requires s'.mem[t] == s.mem[t] && forall i :: Base(t) <= i < Top(t, s.blocks[t]) ==> s'.mem[i] == s.mem[i]
    ensures Parked(s'.mem, t, s'.blocks[t]) && SavedCtx(s'.mem, t, s'.blocks[t]) == SavedCtx(s.mem, t, s.blocks[t])
  {
    var sp := s.mem[t];
    assert s'.mem[sp..sp + 8] == s.mem[sp..sp + 8];
    assert s'.mem[sp + 8..sp + 16] == s.mem[sp + 8..sp + 16];
    assert s'.mem[sp + 16..Top(t, s.blocks[t])] == s.mem[sp + 16..Top(t, s.blocks[t])];
  }

  // Loading makes the saved context live.
  lemma LoadRestores(a: Machine, next: nat)
    requires Laid(a.blocks, |a.mem|) && next in a.blocks && Parked(a.mem, next, a.blocks[next])
    ensures var s' := Returned(Loaded(a, next));
            && s' == a.(curr := Some(next), r := s'.r, h := s'.h, psp := s'.psp) && |s'.r| == 8 && |s'.h| == 8
            && Roomy(next, a.blocks[next], s'.psp)
            && Ctx(s'.r, s'.h, s'.psp, s'.mem[s'.psp..Top(next, a.blocks[next])])
              == SavedCtx(a.mem, next, a.blocks[next])
  {
    var sp: nat := a.mem[next];
    assert a.mem[sp + 8..sp + 8 + 8] == a.mem[sp + 8..sp + 16];
  }

  // Once the running thread is put away, every remaining thread is parked.
  lemma AwayParks(s: Machine, exit: bool)
    requires Inv(s) && s.curr.Some?
    ensures var a, c := Away(s, exit), s.curr.value;
            && Laid(a.blocks, |a.mem|) && |a.r| == 8 && a.blocks == (if exit then s.blocks - {c} else s.blocks)
            && (forall t :: t in a.blocks ==> Parked(a.mem, t, a.blocks[t]))
            && (!exit ==> SavedCtx(a.mem, c, a.blocks[c]) == LiveCtx(s))
            && (forall t :: t in a.blocks && t != c ==>
                SavedCtx(a.mem, t, a.blocks[t]) == SavedCtx(s.mem, t, s.blocks[t]))
  {
    var a, c := Away(s, exit), s.curr.value;
    if !exit { StoredSaves(s); }
    assert |a.mem| == |s.mem|;
    forall t | t in a.blocks
      ensures Parked(a.mem, t, a.blocks[t])
              && (t != c ==> SavedCtx(a.mem, t, a.blocks[t]) == SavedCtx(s.mem, t, s.blocks[t]))
    {
      if t != c { AwayElsewhere(s, exit, t); }
    }
    forall t, u | t in a.blocks && u in a.blocks && t != u
      ensures Apart(a.blocks, t, u)
    {
      assert Apart(s.blocks, t, u);
    }
  }

  // Loading one thread touches no other.
  lemma LoadKeeps(a: Machine, s': Machine, next: nat)
    requires Laid(a.blocks, |a.mem|) && next in a.blocks && forall t :: t in a.blocks ==> Parked(a.mem, t, a.blocks[t])
    requires s' == a.(curr := Some(next), r := s'.r, h := s'.h, psp := s'.psp) && |s'.r| == 8 && |s'.h| == 8
    requires Roomy(next, a.blocks[next], s'.psp)
    ensures Inv(s') && LiveCtx(s') == Ctx(s'.r, s'.h, s'.psp, s'.mem[s'.psp..Top(next, a.blocks[next])])
    ensures forall t :: t in a.blocks && t != next ==>
              SavedCtx(s'.mem, t, s'.blocks[t]) == SavedCtx(a.mem, t, a.blocks[t])
  {
    assert forall t :: t in a.blocks ==> Parked(s'.mem, t, s'.blocks[t]);
  }

  ghost function Switched(s: Machine, next: nat, exit: bool): Machine
    requires Inv(s) && s.curr.Some? && next in s.blocks && (exit ==> next != s.curr.value)
  {
    AwayParks(s, exit);
    Returned(Loaded(Away(s, exit), next))
  }

  // A switch saves the running thread's context, makes the saved context of the next thread
  // live, and leaves every other thread's context as it is.
  lemma SwitchSwaps(s: Machine, next: nat, exit: bool)
    requires Inv(s) && s.curr.Some? && next in s.blocks && (exit ==> next != s.curr.value)
    ensures var s', c := Switched(s, next, exit), s.curr.value;
            && Inv(s') && s'.curr == Some(next)
            && s'.blocks == (if exit then s.blocks - {c} else s.blocks)
            && (next == c ==> LiveCtx(s') == LiveCtx(s))
            && (next != c ==> LiveCtx(s') == SavedCtx(s.mem, next, s.blocks[next]))
            && (next != c && !exit ==> SavedCtx(s'.mem, c, s'.blocks[c]) == LiveCtx(s))
            && (forall t :: t in s.blocks && t != c && t != next ==>
                SavedCtx(s'.mem, t, s'.blocks[t]) == SavedCtx(s.mem, t, s.blocks[t]))
  {
    hide Away, Loaded, Returned, Write, Laid, Roomy;
    var a := Away(s, exit);
    AwayParks(s, exit);
    LoadRestores(a, next);
    LoadKeeps(a, Switched(s, next, exit), next);
  }

  // ---------- new threads ----------

  // The context of a thread that has not run: its argument in r0, thread_exit in lr, its
  // function in pc, and one word of padding above the frame.
  ghost predicate Initial(c: Ctx, top: nat, entry: Word, arg: Word, exitFn: Word) {
    && c.r == [FILL, FILL, FILL, FILL, FILL, FILL, FILL, FILL]
    && c.h == [arg, FILL, FILL, FILL, FILL, exitFn, entry, XPSR]
    && c.psp + 1 == top && |c.stack| == 1
  }

  ghost predicate Fits(s: Machine, t: nat, size: nat) {
    && t !in s.blocks && INITIAL <= size && Top(t, size) <= |s.mem|
    && forall u :: u in s.blocks ==> Top(t, size) <= u || Top(u, s.blocks[u]) <= t
  }

  // Code may write anywhere but over the saved stack pointers and the stacks of the threads other
  // than `own`: all the rest of the control blocks, which hold links, queues, wake-up times and
  // runtimes, the kernel's variables and the heap.
  ghost predicate Minds(s: Machine, mem: seq<Word>, own: Option<nat>) {
    && |mem| == |s.mem|
    && (forall t :: t in s.blocks && own != Some(t) && t < |mem| ==> mem[t] == s.mem[t])
    && forall t, i :: t in s.blocks && own != Some(t) && Base(t) <= i < Top(t, s.blocks[t]) && i < |mem| ==>
         mem[i] == s.mem[i]
  }

  // new_thread runs in the running thread, if there is one.
  ghost predicate Spawned(s: Machine, t: nat, size: nat, entry: Word, arg: Word, exitFn: Word, s': Machine) {
    && Minds(s, s'.mem, s.curr) && s' == s.(mem := s'.mem, blocks := s.blocks[t := size])
    && Parked(s'.mem, t, size) && Initial(SavedCtx(s'.mem, t, size), Top(t, size), entry, arg, exitFn)
  }

  // scheduler_run: the first thread's registers are popped; the word above the stacked pc is
  // skipped, and so is the stacked lr: lr gets the stacked pc, and bx lr jumps to it.
  ghost function Booted(s: Machine, next: nat): Machine
    requires next < |s.mem| && s.mem[next] + CONTEXT <= |s.mem| && |s.h| == 8
  {
    var sp: nat := s.mem[next];
    s.(curr := Some(next), r := s.mem[sp..sp + 8], psp := sp + CONTEXT,
       h := s.mem[sp + 8..sp + 13] + [s.mem[sp + 14], s.mem[sp + 14], s.h[7]])
  }

  // ---------- runs ----------

  datatype Step =
    | Boot(next: nat)
    | Execute(mem: seq<Word>, r: seq<Word>, h: seq<Word>, psp: nat)  // the running thread
    | Kernel(mem: seq<Word>)                                         // a handler, on a stack of its own
    | Switch(next: nat, exit: bool)
    | Spawn(t: nat, size: nat, entry: Word, arg: Word, exitFn: Word)

  ghost predicate Goes(s: Machine, step: Step, s': Machine) {
    Inv(s) &&
    match step
    case Boot(next) => s.curr.None? && next in s.blocks && s' == Booted(s, next)
    case Execute(mem, r, h, psp) =>
      && s.curr.Some? && |r| == 8 && |h| == 8 && Roomy(s.curr.value, s.blocks[s.curr.value], psp)
      && Minds(s, mem, s.curr) && s' == s.(mem := mem, r := r, h := h, psp := psp)
    case Kernel(mem) => Minds(s, mem, None) && s' == s.(mem := mem)
    case Switch(next, exit) =>
      s.curr.Some? && next in s.blocks && (exit ==> next != s.curr.value) && s' == Switched(s, next, exit)
    case Spawn(t, size, entry, arg, exitFn) => Fits(s, t, size) && Spawned(s, t, size, entry, arg, exitFn, s')
  }

  lemma BootInv(s: Machine, next: nat)
    requires Inv(s) && s.curr.None? && next in s.blocks
    ensures Inv(Booted(s, next))
  {
  }

  lemma ExecuteInv(s: Machine, s': Machine)
    requires Inv(s) && s.curr.Some? && Minds(s, s'.mem, s.curr) && |s'.r| == 8 && |s'.h| == 8
    requires Roomy(s.curr.value, s.blocks[s.curr.value], s'.psp)
    requires s' == s.(mem := s'.mem, r := s'.r, h := s'.h, psp := s'.psp)
    ensures Inv(s')
    ensures forall t :: t in s.blocks && s.curr != Some(t) ==>
              SavedCtx(s'.mem, t, s.blocks[t]) == SavedCtx(s.mem, t, s.blocks[t])
  {
    forall t | t in s.blocks && s.curr != Some(t)
      ensures Parked(s'.mem, t, s.blocks[t])
      ensures SavedCtx(s'.mem, t, s.blocks[t]) == SavedCtx(s.mem, t, s.blocks[t])
    {
      SameBlock(s, s', t);
    }
  }

  // A handler leaves the running thread's context alone too.
  lemma KernelInv(s: Machine, s': Machine)
    requires Inv(s) && Minds(s, s'.mem, None) && s' == s.(mem := s'.mem)
    ensures Inv(s')
    ensures s.curr.Some? ==> LiveCtx(s') == LiveCtx(s)
    ensures forall t :: t in s.blocks && s.curr != Some(t) ==>
              SavedCtx(s'.mem, t, s.blocks[t]) == SavedCtx(s.mem, t, s.blocks[t])
  {
    forall t | t in s.blocks && s.curr != Some(t)
      ensures Parked(s'.mem, t, s.blocks[t])
      ensures SavedCtx(s'.mem, t, s.blocks[t]) == SavedCtx(s.mem, t, s.blocks[t])
    {
      SameBlock(s, s', t);
    }
    if s.curr.Some? {
      var top := Top(s.curr.value, s.blocks[s.curr.value]);
      assert s'.mem[s.psp..top] == s.mem[s.psp..top];
    }
  }

  // What the kernel may write in the steps of a run: every word but a saved stack pointer or a
  // word of a stack, and so every other word of every control block.
  lemma KernelMayWrite(s: Machine, i: nat, w: Word)
    requires Inv(s) && i < |s.mem| && w != s.mem[i]
    ensures var mem := s.mem[i := w];
            Goes(s, Kernel(mem), s.(mem := mem))
            <==> forall t :: t in s.blocks ==> i != t && !(Base(t) <= i < Top(t, s.blocks[t]))
  {
    var mem := s.mem[i := w];
    if Minds(s, mem, None) { assert mem[i] != s.mem[i]; }
  }

  lemma SpawnLaid(s: Machine, t: nat, size: nat)
    requires Laid(s.blocks, |s.mem|) && Fits(s, t, size)
    ensures Laid(s.blocks[t := size], |s.mem|)
  {
    assert forall u, v :: u in s.blocks && v in s.blocks && u != v ==> Apart(s.blocks, u, v);
  }

  lemma SpawnElsewhere(s: Machine, s': Machine, t: nat, size: nat, entry: Word, arg: Word, exitFn: Word, u: nat)
    requires Laid(s.blocks, |s.mem|) && Fits(s, t, size) && Spawned(s, t, size, entry, arg, exitFn, s')
    requires u in s.blocks && s.curr != Some(u) && Parked(s.mem, u, s.blocks[u])
    ensures Parked(s'.mem, u, s.blocks[u]) && SavedCtx(s'.mem, u, s.blocks[u]) == SavedCtx(s.mem, u, s.blocks[u])
  {
    SameBlock(s, s', u);
  }

  lemma SpawnInv(s: Machine, s': Machine, t: nat, size: nat, entry: Word, arg: Word, exitFn: Word)
    requires Inv(s) && Fits(s, t, size) && Spawned(s, t, size, entry, arg, exitFn, s')
    ensures Inv(s')
    ensures forall u :: u in s.blocks && s.curr != Some(u) ==>
              SavedCtx(s'.mem, u, s.blocks[u]) == SavedCtx(s.mem, u, s.blocks[u])
  {
    hide Laid, Parked, Initial, SavedCtx;
    SpawnLaid(s, t, size);
    forall u | u in s.blocks && s.curr != Some(u)
      ensures Parked(s'.mem, u, s.blocks[u])
      ensures SavedCtx(s'.mem, u, s.blocks[u]) == SavedCtx(s.mem, u, s.blocks[u])
    {
      SpawnElsewhere(s, s', t, size, entry, arg, exitFn, u);
    }
  }

  // Every step keeps the invariant, and the context of every thread that is suspended
  // before and after it.
  lemma GoesKeeps(s: Machine, step: Step, s': Machine)
    requires Goes(s, step, s')
    ensures Inv(s')
    ensures forall t :: t in s.blocks && s.curr != Some(t) && s'.curr != Some(t) ==>
              t in s'.blocks && s'.blocks[t] == s.blocks[t]
              && SavedCtx(s'.mem, t, s.blocks[t]) == SavedCtx(s.mem, t, s.blocks[t])
    ensures step.Kernel? && s.curr.Some? ==> LiveCtx(s') == LiveCtx(s)
  {
    hide Booted, Switched, Laid, Roomy, SavedCtx, LiveCtx, Inv;
    match step
    case Boot(next) => BootInv(s, next); BootMem(s, next);
    case Execute(_, _, _, _) => ExecuteInv(s, s');
    case Kernel(_) => KernelInv(s, s');
    case Switch(next, exit) => SwitchSwaps(s, next, exit);
    case Spawn(t, size, entry, arg, exitFn) => SpawnInv(s, s', t, size, entry, arg, exitFn);
  }

  lemma BootMem(s: Machine, next: nat)
    requires Inv(s) && s.curr.None? && next in s.blocks
    ensures var s' := Booted(s, next); s'.mem == s.mem && s'.blocks == s.blocks && s'.curr == Some(next)
  {
  }

  ghost predicate Run(trace: seq<Machine>, steps: seq<Step>) {
    |trace| == |steps| + 1 && forall i :: 0 <= i < |steps| ==> Goes(trace[i], steps[i], trace[i + 1])
  }

  // While a thread is suspended nothing touches its context.
  lemma {:induction false} Undisturbed(trace: seq<Machine>, steps: seq<Step>, t: nat, i: nat, j: nat)
    requires Run(trace, steps) && i <= j < |trace| && t in trace[i].blocks && Inv(trace[i])
    requires forall k :: i <= k <= j ==> trace[k].curr != Some(t)
    ensures Inv(trace[j]) && t in trace[j].blocks && trace[j].blocks[t] == trace[i].blocks[t]
    ensures SavedCtx(trace[j].mem, t, trace[i].blocks[t]) == SavedCtx(trace[i].mem, t, trace[i].blocks[t])
  {
    hide Goes, Inv, SavedCtx;
    if i < j {
      Undisturbed(trace, steps, t, i, j - 1);
      assert Goes(trace[j - 1], steps[j - 1], trace[j]);
      GoesKeeps(trace[j - 1], steps[j - 1], trace[j]);
    }
  }

  // A context switch is transparent: a thread that is switched out and next runs at step j
  // resumes with the registers, the stack pointer and the stack it had, whatever ran between.
  lemma Resumes(trace: seq<Machine>, steps: seq<Step>, t: nat, i: nat, j: nat)
    requires Run(trace, steps) && i < j < |steps| && trace[i].curr == Some(t) && t in trace[i].blocks
    requires steps[i].Switch? && !steps[i].exit && steps[j].Switch? && steps[j].next == t
    requires forall k :: i < k <= j ==> trace[k].curr != Some(t)
    ensures Inv(trace[i]) && Inv(trace[j + 1]) && trace[j + 1].curr == Some(t)
    ensures LiveCtx(trace[j + 1]) == LiveCtx(trace[i])
  {
    hide SavedCtx, LiveCtx, Switched, Laid, Roomy;
    assert Goes(trace[i], steps[i], trace[i + 1]) && Goes(trace[j], steps[j], trace[j + 1]);
    SwitchSwaps(trace[i], steps[i].next, false);
    Undisturbed(trace, steps, t, i + 1, j);
    SwitchSwaps(trace[j], t, steps[j].exit);
  }

  // A switch from a thread to itself changes nothing it can see.
  lemma ResumesAtOnce(s: Machine, s': Machine)
    requires Inv(s) && s.curr.Some? && Goes(s, Switch(s.curr.value, false), s')
    ensures Inv(s') && s'.curr == s.curr && LiveCtx(s') == LiveCtx(s)
  {
    hide LiveCtx, Switched;
    SwitchSwaps(s, s.curr.value, false);
  }

  // A thread that is first switched to at step j starts as stack_setup laid it out at step i.
  lemma StartsAsLaidOut(trace: seq<Machine>, steps: seq<Step>, i: nat, j: nat)
    requires Run(trace, steps) && i < j < |steps| && steps[i].Spawn? && steps[j].Switch? && steps[j].next == steps[i].t
    requires forall k :: i < k <= j ==> trace[k].curr != Some(steps[i].t)
    ensures Inv(trace[j + 1]) && trace[j + 1].curr == Some(steps[i].t)
    ensures Initial(LiveCtx(trace[j + 1]), Top(steps[i].t, steps[i].size), steps[i].entry, steps[i].arg,
                    steps[i].exitFn)
  {
    hide SavedCtx, LiveCtx, Switched, Laid, Roomy, Initial;
    assert Goes(trace[i], steps[i], trace[i + 1]) && Goes(trace[j], steps[j], trace[j + 1]);
    GoesKeeps(trace[i], steps[i], trace[i + 1]);
    Undisturbed(trace, steps, steps[i].t, i + 1, j);
    SwitchSwaps(trace[j], steps[i].t, steps[j].exit);
  }

  // The first thread of all starts from its pc, argument and stack, but its lr is its own pc:
  // returning from its function, it reaches thread_exit only if that is its function.
  lemma FirstThread(s: Machine, next: nat, entry: Word, arg: Word, exitFn: Word)
    requires Inv(s) && s.curr.None? && next in s.blocks
    requires Initial(SavedCtx(s.mem, next, s.blocks[next]), Top(next, s.blocks[next]), entry, arg, exitFn)
    ensures var b := Booted(s, next);
            && Inv(b) && b.h[0] == arg && b.h[6] == entry && b.psp + 1 == Top(next, s.blocks[next])
            && b.r == [FILL, FILL, FILL, FILL, FILL, FILL, FILL, FILL]
            && b.h[1] == b.h[2] == b.h[3] == b.h[4] == FILL
            && (b.h[5] == exitFn <==> entry == exitFn)
  {
    BootInv(s, next);
    var sp: nat := s.mem[next];
    var h := s.mem[sp + 8..sp + 16];
    assert h[0] == s.mem[sp + 8] && h[6] == s.mem[sp + 14];
    assert s.mem[sp + 8..sp + 13] == h[..5];
    assert h[..5] == [arg, FILL, FILL, FILL, FILL];
  }

  // ---------- the code ----------

  class Cpu {
    const mem: array<Word>
    const threadExit: Word
    var r: seq<Word>
    var h: seq<Word>
    var psp: nat
    var currThread: Option<nat>
    var nextThread: nat
    ghost var blocks: map<nat, nat>

    constructor (words: nat, threadExit: Word, h: seq<Word>)
      requires words <= 0x1_0000_0000 && |h| == 8
      ensures Inv(View()) && fresh(mem) && currThread == None && blocks == map[] && mem.Length == words
    {
      mem := new Word[words](_ => 0);
      this.threadExit := threadExit;
      r, this.h, psp, currThread, nextThread, blocks := seq(8, _ => 0), h, 0, None, 0, map[];
    }

    ghost function View(): Machine
      reads this, mem
    {
      Machine(mem[..], r, h, psp, currThread, blocks)
    }

    // stmdb: the words go below `a`, the first at the lowest address
    method StoreBelow(a: nat, ws: seq<Word>) returns (sp: nat)
      requires |ws| <= a <= mem.Length
      modifies mem
      ensures sp == a - |ws| && mem[..] == Write(old(mem[..]), sp, ws)
    {
      sp := a;
      ghost var k := |ws|;
      while sp > a - |ws|
        invariant a - |ws| <= sp <= a
        invariant forall i :: 0 <= i < mem.Length ==> mem[i] == if sp <= i < a then ws[i - (a - |ws|)] else old(mem[i])
      {
        sp := sp - 1;
        mem[sp] := ws[sp - (a - |ws|)];
      }
    }

    // ldmia
    method LoadFrom(a: nat, n: nat) returns (ws: seq<Word>)
      requires a + n <= mem.Length
      ensures ws == mem[a..a + n]
    {
      ws := [];
      while |ws| < n
        invariant |ws| <= n && ws == mem[a..a + |ws|]
      {
        ws := ws + [mem[a + |ws|]];
      }
    }

    // The hardware's part of taking an exception on the process stack
    method ExceptionEntry()
      requires 8 <= psp <= mem.Length && |h| == 8
      modifies this`psp, mem
      ensures View() == Entered(old(View()))
    {
      psp := StoreBelow(psp, h);
    }

    method ExceptionReturn()
      requires psp + 8 <= mem.Length
      modifies this`psp, this`h
      ensures View() == Returned(old(View()))
    {
      h := LoadFrom(psp, 8);
      psp := psp + 8;
    }

    method SaveContext(c: nat)
      requires currThread == Some(c) && c < mem.Length <= 0x1_0000_0000 && 8 <= psp <= mem.Length && |r| == 8
      modifies this`psp, mem
      ensures View() == Stored(old(View()))
    {
      psp := StoreBelow(psp, r);
      mem[c] := psp;
    }

    // pendsv_exception
    method PendsvException()
      requires mem.Length <= 0x1_0000_0000 && |r| == 8 && nextThread < mem.Length
      requires currThread.Some? ==> currThread.value < mem.Length && 8 <= psp <= mem.Length
      requires var v := View(); (if currThread.Some? then Stored(v) else v).mem[nextThread] + 8 <= mem.Length
      modifies this, mem
      ensures View() == var v := old(View()); Loaded(if v.curr.Some? then Stored(v) else v, old(nextThread))
      ensures nextThread == old(nextThread)
    {
      hide Write;
      if currThread.Some? {
        SaveContext(currThread.value);
      }
      currThread := Some(nextThread);
      var sp: nat := mem[nextThread];
      r := LoadFrom(sp, 8);
      psp := sp + 8;
    }

    // From the exception that ends a time slice to the return into the next thread; an exiting
    // thread has been removed in between, which leaves curr_thread NULL
    method SwitchTo(next: nat, exit: bool)
      requires Inv(View()) && currThread.Some? && next in blocks && (exit ==> next != currThread.value)
      modifies this, mem
      ensures View() == Switched(old(View()), next, exit) && Inv(View())
      ensures nextThread == next
    {
      hide Inv, SavedCtx, LiveCtx, Write, Roomy, Laid, Parked, Stored, Returned, Base;
      ghost var s := View();
      InRange(s, exit, next);
      SwitchSwaps(s, next, exit);
      ExceptionEntry();
      nextThread := next;
      if exit {
        blocks := blocks - {currThread.value};
        currThread := None;
      }
      PendsvException();
      ExceptionReturn();
    }

    // scheduler_run
    method SchedulerRun()
      requires Inv(View()) && currThread.None? && nextThread in blocks
      modifies this
      ensures nextThread == old(nextThread)
      ensures View() == Booted(old(View()), old(nextThread)) && Inv(View())
    {
      BootInv(View(), nextThread);
      var sp: nat := mem[nextThread];
      r := LoadFrom(sp, 8);
      var low := LoadFrom(sp + 8, 5);
      var lr := mem[sp + 14];
      h := low + [lr, lr, h[7]];
      psp := sp + CONTEXT;
      currThread := Some(nextThread);
    }

    // The part of stack_setup that the hardware will unstack
    method SetupFrame(top: nat, thread: Word, arg: Word) returns (sp: nat)
      requires 9 <= top < mem.Length
      modifies mem
      ensures sp == top - 9
      ensures mem[top - 8..top] == [arg, FILL, FILL, FILL, FILL, threadExit, thread, XPSR]
      ensures forall i :: 0 <= i < mem.Length && !(sp < i < top) ==> mem[i] == old(mem[i])
    {
      sp := top - 1;
      mem[sp] := XPSR;
      sp := sp - 1;
      mem[sp] := thread;
      sp := sp - 1;
      mem[sp] := threadExit;
      sp := sp - 1;
      mem[sp] := FILL;
      sp := sp - 1;
      mem[sp] := FILL;
      sp := sp - 1;
      mem[sp] := FILL;
      sp := sp - 1;
      mem[sp] := FILL;
      sp := sp - 1;
      mem[sp] := arg;
      sp := sp - 1;
    }

    // The part that the context switch will load
    method SetupRegisters(top: nat) returns (sp: nat)
      requires 8 <= top < mem.Length
      modifies mem
      ensures sp == top - 7
      ensures mem[sp..sp + 8] == [FILL, FILL, FILL, FILL, FILL, FILL, FILL, FILL]
      ensures forall i :: 0 <= i < mem.Length && !(sp <= i <= top) ==> mem[i] == old(mem[i])
    {
      sp := top;
      mem[sp] := FILL;
      sp := sp - 1;
      mem[sp] := FILL;
      sp := sp - 1;
      mem[sp] := FILL;
      sp := sp - 1;
      mem[sp] := FILL;
      sp := sp - 1;
      mem[sp] := FILL;
      sp := sp - 1;
      mem[sp] := FILL;
      sp := sp - 1;
      mem[sp] := FILL;
      sp := sp - 1;
      mem[sp] := FILL;
    }

    // stack_setup
    method StackSetup(top: nat, thread: Word, arg: Word) returns (sp: nat)
      requires INITIAL <= top < mem.Length
      modifies mem
      ensures sp == top - CONTEXT
      ensures mem[sp..sp + 8] == [FILL, FILL, FILL, FILL, FILL, FILL, FILL, FILL]
      ensures mem[sp + 8..sp + 16] == [arg, FILL, FILL, FILL, FILL, threadExit, thread, XPSR]
      ensures forall i :: 0 <= i < mem.Length && !(sp <= i < top) ==> mem[i] == old(mem[i])
    {
      sp := SetupFrame(top, thread, arg);
      ghost var m := mem[..];
      sp := SetupRegisters(sp);
      assert mem[sp + 8..sp + 16] == m[sp + 8..sp + 16];
    }

    // The block of a new thread
    method NewThread(t: nat, size: nat, thread: Word, arg: Word)
      requires Inv(View()) && Fits(View(), t, size)
      modifies this`blocks, mem
      ensures Spawned(old(View()), t, size, thread, arg, threadExit, View()) && Inv(View())
      ensures forall i :: 0 <= i < mem.Length && !(t <= i < Top(t, size)) ==> mem[i] == old(mem[i])
    {
      ghost var s := View();
      var sp := StackSetup(t + TCB_WORDS + size - 1, thread, arg);
      mem[t] := sp;
      blocks := blocks[t := size];
      SpawnInv(s, View(), t, size, thread, arg, threadExit);
    }
  }

  lemma InRange(s: Machine, exit: bool, next: nat)
    requires Inv(s) && s.curr.Some? && next in s.blocks && (exit ==> next != s.curr.value)
    ensures var a := Away(s, exit);
            && |a.mem| == |s.mem| && next < |a.mem| && a.mem[next] + 16 <= |a.mem|
            && s.curr.value < |s.mem| <= 0x1_0000_0000 && 16 <= s.psp <= |s.mem| && |s.r| == 8 && |s.h| == 8
  {
    AwayParks(s, exit);
    assert Parked(Away(s, exit).mem, next, s.blocks[next]);
  }
}
