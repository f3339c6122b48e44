/** The processor, word memory and run queue as values, and the steps that thread.c, switch_task.s and
    interrupt.s make on them. */
module Machine {

  datatype Cpu = Cpu(eax: int, ebx: int, ecx: int, edx: int, esi: int, edi: int, ebp: int,
                     esp: int, eip: int, eflags: int)

  /** Memory by the address of each 4-byte word. A word nobody has written yet reads as 0. */
  type Ram = map<int, int>

  function Rd(m: Ram, a: int): int {
    if a in m then m[a] else 0
  }

  /** A thread's stack block, lowest address first. */
  datatype Stack = Stack(lo: int, hi: int)

  /** What an interrupt interrupted, and its number. */
  datatype Interrupted = Interrupted(context: Cpu, number: int)

  /** One moment: ring[0] is the thread on whose stack the processor runs, and ring follows the next_thread pointers.
      The variable current_thread is ring[0], or the one after it from the moment thread_yield has advanced it until
      switch_task changes the stack: open says so. stacks and pending are bookkeeping, pending holds each thread's
      unfinished interrupts, the outermost first. */
  datatype State = State(cpu: Cpu, mem: Ram, ring: seq<int>, stacks: map<int, Stack>,
                         pending: map<int, seq<Interrupted>>, open: bool)

  /** The unfinished interrupts of thread t. */
  ghost function Frames(s: State, t: int): seq<Interrupted> {
    if t in s.pending then s.pending[t] else []
  }

  const CODE_SELECTOR := 0x08
  const TIMER := 32
  const KEYBOARD := 33

  // ----- Frames in memory

  /** The eight words switch_task leaves on a stack: seven registers and the return address. */
  ghost predicate SwitchFrame(m: Ram, a: int, c: Cpu, ret: int) {
    && Rd(m, a) == c.ebp && Rd(m, a + 4) == c.edi && Rd(m, a + 8) == c.esi && Rd(m, a + 12) == c.edx
    && Rd(m, a + 16) == c.ecx && Rd(m, a + 20) == c.ebx && Rd(m, a + 24) == c.eax && Rd(m, a + 28) == ret
  }

  /** The registers as pop, pop, ..., ret load them from address a; flags are not touched. */
  ghost function Popped(m: Ram, a: int, eflags: int): Cpu {
    Cpu(Rd(m, a + 24), Rd(m, a + 20), Rd(m, a + 16), Rd(m, a + 12), Rd(m, a + 8), Rd(m, a + 4), Rd(m, a),
        a + 32, Rd(m, a + 28), eflags)
  }

  const INTERRUPT_FRAME := 48

  /** The twelve words of an interrupted context: pushed by the CPU, the entry macro and the common handler. */
  ghost predicate InterruptFrame(m: Ram, a: int, c: Cpu, number: int) {
    && Rd(m, a) == c.ebp && Rd(m, a + 4) == c.edi && Rd(m, a + 8) == c.esi && Rd(m, a + 12) == c.edx
    && Rd(m, a + 16) == c.ecx && Rd(m, a + 20) == c.ebx && Rd(m, a + 24) == c.eax
    && Rd(m, a + 28) == number && Rd(m, a + 32) == 0
    && Rd(m, a + 36) == c.eip && Rd(m, a + 40) == CODE_SELECTOR && Rd(m, a + 44) == c.eflags
  }

  /** The registers as the common handler's pops and iret load them from address a. */
  ghost function Returned(m: Ram, a: int): Cpu {
    Cpu(Rd(m, a + 24), Rd(m, a + 20), Rd(m, a + 16), Rd(m, a + 12), Rd(m, a + 8), Rd(m, a + 4), Rd(m, a),
        a + INTERRUPT_FRAME, Rd(m, a + 36), Rd(m, a + 44))
  }

  /** Interrupt flag, bit 9 of eflags. */
  function InterruptsOn(eflags: int): bool { eflags / 512 % 2 == 1 }

  // ----- What must not change

  ghost predicate SameWords(m: Ram, m': Ram, lo: int, hi: int) {
    forall a {:trigger Rd(m', a)} :: lo <= a < hi ==> Rd(m', a) == Rd(m, a)
  }

  /** Where the frame of an interrupt begins. */
  ghost function Base(f: Interrupted): int {
    f.context.esp - INTERRUPT_FRAME
  }

  /** The bottom of the part of a stack that its unfinished interrupts still need. */
  ghost function FloorOf(st: Stack, frames: seq<Interrupted>): int {
    if frames == [] then st.hi else Base(frames[|frames| - 1])
  }

  ghost function Floor(s: State, t: int): int
    requires t in s.stacks
  {
    FloorOf(s.stacks[t], Frames(s, t))
  }

  // ----- Steps

  datatype Event =
    | Work
    | Yield(ret: int)
    | Advance
    | Switch(ret: int)
    | Interrupt(number: int, handler: int)
    | Return
    | Create(thread: int, base: int, entry: int)

  /** The current thread computes: any registers, any memory but other threads' stacks, the thread blocks,
      and the frames of interrupts it has not returned from. */
  ghost predicate WorkStep(s: State, s': State)
    requires |s.ring| > 0 && s.ring[0] in s.stacks
  {
    var t := s.ring[0];
    && s' == s.(cpu := s'.cpu, mem := s'.mem)
    && (forall u :: u in s.stacks && u != t ==> SameWords(s.mem, s'.mem, s.stacks[u].lo, s.stacks[u].hi))
    && (forall u :: u in s.stacks ==> SameWords(s.mem, s'.mem, u, u + 8))
    && SameWords(s.mem, s'.mem, Floor(s, t), s.stacks[t].hi)
    && s'.cpu.esp % 4 == 0 && s.stacks[t].lo <= s'.cpu.esp <= Floor(s, t)
  }

  /** The thread after the first one, which is the first one itself in a ring of one. */
  function NextOf(ring: seq<int>): int
    requires |ring| > 0
  {
    if |ring| > 1 then ring[1] else ring[0]
  }

  /** The variable current_thread. */
  function Current(s: State): int
    requires |s.ring| > 0
  {
    if s.open then NextOf(s.ring) else s.ring[0]
  }

  /** thread_yield's call of switch_task, from old_thread t to current_thread u: arguments and return address pushed,
      then the switch itself. */
  ghost predicate SwitchStep(s: State, t: int, u: int, ret: int, s': State) {
    var e := s.cpu.esp - 12;
    && s'.stacks == s.stacks && s'.pending == s.pending && !s'.open
    && SwitchFrame(s'.mem, e - 28, s.cpu, ret) && Rd(s'.mem, e + 4) == t && Rd(s'.mem, e + 8) == Rd(s.mem, u)
    && Rd(s'.mem, t) == e - 28
    && (forall a {:trigger Rd(s'.mem, a)} :: !(e - 28 <= a < e + 12) && a != t ==> Rd(s'.mem, a) == Rd(s.mem, a))
    && s'.cpu == Popped(s'.mem, Rd(s.mem, u), s.cpu.eflags)
  }

  /** The running thread gives way to the next one. */
  ghost predicate YieldStep(s: State, ret: int, s': State)
    requires |s.ring| > 0
  {
    s'.ring == s.ring[1..] + [s.ring[0]] && SwitchStep(s, s.ring[0], NextOf(s.ring), ret, s')
  }

  /** The thread after the next one. */
  function AfterNext(ring: seq<int>): int
    requires |ring| > 0
  {
    if |ring| > 2 then ring[2] else ring[0]
  }

  /** thread_yield called once more while the running thread is between advancing current_thread and changing the
      stack: what it takes for the running thread is the next one. */
  ghost predicate TornStep(s: State, ret: int, s': State)
    requires |s.ring| > 0
  {
    && s'.ring == (if |s.ring| > 2 then s.ring[2..] + s.ring[..2] else s.ring)
    && SwitchStep(s, NextOf(s.ring), AfterNext(s.ring), ret, s')
  }

  /** A hardware interrupt up to the call of the C handler; the gate clears the interrupt flag. */
  ghost predicate EntryStep(s: State, number: int, handler: int, s': State)
    requires |s.ring| > 0
  {
    var e := s.cpu.esp - INTERRUPT_FRAME;
    && s'.ring == s.ring && s'.stacks == s.stacks && s'.open == s.open
    && s'.pending == s.pending[s.ring[0] := Frames(s, s.ring[0]) + [Interrupted(s.cpu, number)]]
    && InterruptFrame(s'.mem, e, s.cpu, number)
    && (forall a {:trigger Rd(s'.mem, a)} :: !(e <= a < s.cpu.esp) ==> Rd(s'.mem, a) == Rd(s.mem, a))
    && s'.cpu == s.cpu.(esp := e, eip := handler, eflags := s.cpu.eflags - 512)
  }

  /** The C handler has returned: pops, add esp 8, iret. */
  ghost predicate ExitStep(s: State, s': State)
    requires |s.ring| > 0
  {
    var frames := Frames(s, s.ring[0]);
    && frames != []
    && s' == s.(cpu := Returned(s.mem, s.cpu.esp), pending := s.pending[s.ring[0] := frames[..|frames| - 1]])
  }

  /** create_thread after its two mallocs: a forged switch frame, and the block linked in after the current one. */
  ghost predicate CreateStep(s: State, thread: int, base: int, entry: int, s': State)
    requires |s.ring| > 0
  {
    var top := base + 4096;
    && s'.cpu == s.cpu && s'.pending == s.pending && s'.open == s.open
    && s'.ring == [s.ring[0], thread] + s.ring[1..] && s'.stacks == s.stacks[thread := Stack(base, top)]
    && SwitchFrame(s'.mem, top - 32, Cpu(0, 0, 0, 0, 0, 0, 0, 0, 0, 0), entry)
    && Rd(s'.mem, thread) == top - 32 && Rd(s'.mem, thread + 4) == Rd(s.mem, s.ring[0] + 4)
    && Rd(s'.mem, s.ring[0] + 4) == thread
    && (forall a {:trigger Rd(s'.mem, a)} ::
          !(top - 32 <= a < top) && !(thread <= a < thread + 8) && a != s.ring[0] + 4 ==> Rd(s'.mem, a) == Rd(s.mem, a))
  }

  /** What event e does to the machine, whatever the state of the threads. */
  ghost predicate Does(s: State, e: Event, s': State) {
    match e
    case Work => |s.ring| > 0 && s.ring[0] in s.stacks && WorkStep(s, s')
    case Yield(ret) => |s.ring| > 0 && if s.open then TornStep(s, ret, s') else YieldStep(s, ret, s')
    case Advance => |s.ring| > 0 && s' == s.(open := true)
    case Switch(ret) => |s.ring| > 0 && YieldStep(s, ret, s')
    case Interrupt(number, handler) => |s.ring| > 0 && EntryStep(s, number, handler, s')
    case Return => |s.ring| > 0 && ExitStep(s, s')
    case Create(thread, base, entry) => |s.ring| > 0 && CreateStep(s, thread, base, entry, s')
  }

  // ----- The invariant

  ghost predicate Apart(lo: int, hi: int, lo': int, hi': int) {
    hi <= lo' || hi' <= lo
  }

  ghost predicate Aligned(t: int, st: Stack) {
    t % 4 == 0 && st.lo % 4 == 0 && st.hi % 4 == 0 && st.lo <= st.hi
  }

  /** Two threads' blocks and stacks lie apart; so do one thread's own block and stack. */
  ghost predicate SeparateThreads(stacks: map<int, Stack>, t: int, u: int)
    requires t in stacks && u in stacks
  {
    && Apart(t, t + 8, stacks[u].lo, stacks[u].hi)
    && (t != u ==> Apart(t, t + 8, u, u + 8)
                   && Apart(stacks[t].lo, stacks[t].hi, stacks[u].lo, stacks[u].hi))
  }

  ghost predicate Disjoint(stacks: map<int, Stack>) {
    && (forall t {:trigger stacks[t]} :: t in stacks ==> Aligned(t, stacks[t]))
    && (forall t, u {:trigger SeparateThreads(stacks, t, u)} ::
          t in stacks && u in stacks ==> SeparateThreads(stacks, t, u))
  }

  ghost predicate RingLinked(mem: Ram, ring: seq<int>) {
    forall i :: 0 <= i < |ring| ==> LinkAt(mem, ring, i)
  }

  ghost predicate LinkAt(mem: Ram, ring: seq<int>, i: int)
    requires 0 <= i < |ring|
  {
    Rd(mem, ring[i] + 4) == ring[if i + 1 == |ring| then 0 else i + 1]
  }

  /** Exactly the known threads, each once. */
  ghost predicate RingOf(ring: seq<int>, stacks: map<int, Stack>) {
    && |ring| > 0
    && (forall i :: 0 <= i < |ring| ==> ring[i] in stacks)
    && (forall i, j :: 0 <= i < j < |ring| ==> ring[i] != ring[j])
    && (forall t :: t in stacks ==> t in ring)
  }

  /** A suspended thread: its saved esp points at eight words of its own stack, below any interrupt frame. */
  ghost predicate Suspended(s: State, t: int)
    requires t in s.stacks
  {
    var e := Rd(s.mem, t);
    e % 4 == 0 && s.stacks[t].lo <= e && e + 32 <= Floor(s, t)
  }

  /** The frame of one unfinished interrupt lies whole in the stack. */
  ghost predicate FrameOk(m: Ram, st: Stack, f: Interrupted) {
    && f.context.esp % 4 == 0 && st.lo + INTERRUPT_FRAME <= f.context.esp <= st.hi
    && InterruptFrame(m, Base(f), f.context, f.number)
  }

  /** The frames of a thread's unfinished interrupts, each below the ones it interrupted. */
  ghost predicate FramesOk(m: Ram, st: Stack, frames: seq<Interrupted>) {
    && (forall i :: 0 <= i < |frames| ==> FrameOk(m, st, frames[i]))
    && (forall i, j :: 0 <= i < j < |frames| ==> frames[j].context.esp <= Base(frames[i]))
  }

  ghost predicate PendingOk(s: State, t: int)
    requires t in s.stacks
  {
    FramesOk(s.mem, s.stacks[t], Frames(s, t))
  }

  ghost predicate Inv(s: State) {
    && RingOf(s.ring, s.stacks) && Disjoint(s.stacks) && RingLinked(s.mem, s.ring)
    && (forall t {:trigger Suspended(s, t)} :: t in s.stacks && t != s.ring[0] ==> Suspended(s, t))
    && (forall t :: t in s.pending ==> t in s.stacks)
    && (forall t {:trigger PendingOk(s, t)} :: t in s.stacks ==> PendingOk(s, t))
    && s.cpu.esp % 4 == 0 && s.stacks[s.ring[0]].lo <= s.cpu.esp <= Floor(s, s.ring[0])
    && (s.open ==> |s.ring| > 1)
  }

  /** The next instruction is one of thread_yield's between its two writes, not one of a handler in between. */
  ghost predicate InWindow(s: State)
    requires |s.ring| > 0
  {
    s.open && Frames(s, s.ring[0]) == []
  }

  /** One step of the kernel, under the conditions the hardware and the callers supply: stack room for what is pushed,
      interrupts enabled for the timer or the keyboard to interrupt, a handler that has returned before iret, and
      fresh memory for a new thread. Interrupts may nest to any depth. Yield is a call of thread_yield that nothing
      interrupts, as in a handler; Advance and Switch are the two parts of one that a task makes, with anything in
      between that interrupts can bring. */
  ghost predicate StepBy(s: State, e: Event, s': State)
    requires Inv(s)
  {
    var t := s.ring[0];
    && Does(s, e, s')
    && match e
       case Work => !InWindow(s)
       case Yield(_) => |s.ring| > 1 && s.cpu.esp - 40 >= s.stacks[t].lo && !InWindow(s)
       case Advance => |s.ring| > 1 && !s.open && Frames(s, t) == []
       case Switch(_) => InWindow(s) && s.cpu.esp - 40 >= s.stacks[t].lo
       case Interrupt(number, _) =>
         && (number == TIMER || number == KEYBOARD)
         && InterruptsOn(s.cpu.eflags) && s.cpu.esp - INTERRUPT_FRAME >= s.stacks[t].lo
       case Return => s.cpu.esp == Floor(s, t)
       case Create(thread, base, _) =>
         !s.open && thread !in s.stacks && Disjoint(s.stacks[thread := Stack(base, base + 4096)])
  }

  /** The step is a switch in a handler that has interrupted thread_yield between its two writes. */
  ghost predicate Tears(s: State, e: Event) {
    e.Yield? && s.open
  }

  /** A step that does not tear a thread_yield. */
  ghost predicate NextBy(s: State, e: Event, s': State)
    requires Inv(s)
  {
    StepBy(s, e, s') && !Tears(s, e)
  }

  /** The step changes the stack to the next thread's. */
  predicate IsSwitch(e: Event) {
    e.Yield? || e.Switch?
  }

  // ----- What a step does to the threads that are not running

  /** Thread u sees no change: its stack words, its saved esp, its unfinished interrupts. */
  ghost predicate Kept(s: State, s': State, u: int)
    requires u in s.stacks
  {
    && u in s'.stacks && s'.stacks[u] == s.stacks[u]
    && Frames(s', u) == Frames(s, u)
    && Rd(s'.mem, u) == Rd(s.mem, u)
    && SameWords(s.mem, s'.mem, s.stacks[u].lo, s.stacks[u].hi)
  }

  lemma BlocksApart(s: State, t: int, u: int)
    requires Inv(s) && t in s.stacks && u in s.stacks
    ensures t != u ==> Apart(t, t + 8, u, u + 8)
    ensures t != u ==> Apart(s.stacks[t].lo, s.stacks[t].hi, s.stacks[u].lo, s.stacks[u].hi)
    ensures Apart(t, t + 8, s.stacks[u].lo, s.stacks[u].hi)
    ensures Apart(u, u + 8, s.stacks[t].lo, s.stacks[t].hi)
  {
    assert SeparateThreads(s.stacks, t, u) && SeparateThreads(s.stacks, u, t);
  }

  lemma FloorInStack(s: State, t: int)
    requires Inv(s) && t in s.stacks
    ensures s.stacks[t].lo <= Floor(s, t) <= s.stacks[t].hi
  {
    assert PendingOk(s, t);
  }

  /** A step changes nothing for any thread but the running one. */
  lemma OthersKept(s: State, e: Event, s': State, u: int)
    requires Inv(s) && NextBy(s, e, s') && u in s.stacks && u != s.ring[0]
    ensures Kept(s, s', u)
  {
    var t := s.ring[0];
    BlocksApart(s, t, u);
    FloorInStack(s, t);
    match e
    case Work =>
      assert SameWords(s.mem, s'.mem, u, u + 8);
      assert Rd(s'.mem, u) == Rd(s.mem, u);
    case Create(thread, base, entry) =>
      NewBlockApart(s, thread, base, u);
    case Yield(ret) =>
    case Advance =>
    case Switch(ret) =>
    case Interrupt(number, handler) =>
    case Return =>
  }

  lemma NewBlockApart(s: State, thread: int, base: int, u: int)
    requires Inv(s) && thread !in s.stacks && Disjoint(s.stacks[thread := Stack(base, base + 4096)]) && u in s.stacks
    ensures Apart(thread, thread + 8, u, u + 8) && Apart(base, base + 4096, s.stacks[u].lo, s.stacks[u].hi)
    ensures Apart(thread, thread + 8, s.stacks[u].lo, s.stacks[u].hi) && Apart(u, u + 8, base, base + 4096)
    ensures Apart(thread, thread + 8, base, base + 4096)
  {
    var all := s.stacks[thread := Stack(base, base + 4096)];
    assert all[thread] == Stack(base, base + 4096) && all[u] == s.stacks[u];
    assert SeparateThreads(all, thread, u) && SeparateThreads(all, u, thread);
    assert SeparateThreads(all, thread, thread);
  }

  lemma KeptSuspended(s: State, s': State, u: int)
    requires u in s.stacks && Kept(s, s', u) && Suspended(s, u)
    ensures Suspended(s', u)
  {
  }

  lemma KeptFrame(m: Ram, m': Ram, st: Stack, f: Interrupted)
    requires FrameOk(m, st, f) && SameWords(m, m', Base(f), f.context.esp)
    ensures FrameOk(m', st, f)
  {
    var a := Base(f);
    assert Rd(m', a) == Rd(m, a) && Rd(m', a + 4) == Rd(m, a + 4);
    assert Rd(m', a + 8) == Rd(m, a + 8) && Rd(m', a + 12) == Rd(m, a + 12);
    assert Rd(m', a + 16) == Rd(m, a + 16) && Rd(m', a + 20) == Rd(m, a + 20);
    assert Rd(m', a + 24) == Rd(m, a + 24) && Rd(m', a + 28) == Rd(m, a + 28);
    assert Rd(m', a + 32) == Rd(m, a + 32) && Rd(m', a + 36) == Rd(m, a + 36);
    assert Rd(m', a + 40) == Rd(m, a + 40) && Rd(m', a + 44) == Rd(m, a + 44);
  }

  /** Frames stay whole while nothing at or above the floor is written. */
  lemma KeptFrames(m: Ram, m': Ram, st: Stack, frames: seq<Interrupted>)
    requires FramesOk(m, st, frames) && SameWords(m, m', FloorOf(st, frames), st.hi)
    ensures FramesOk(m', st, frames)
  {
    forall i | 0 <= i < |frames|
      ensures FrameOk(m', st, frames[i])
    {
      assert FrameOk(m, st, frames[i]);
      var last := frames[|frames| - 1];
      assert frames[i] == last || last.context.esp <= Base(frames[i]);
      KeptFrame(m, m', st, frames[i]);
    }
  }

  lemma KeptPending(s: State, s': State, u: int)
    requires u in s.stacks && PendingOk(s, u)
    requires u in s'.stacks && s'.stacks[u] == s.stacks[u] && Frames(s', u) == Frames(s, u)
    requires SameWords(s.mem, s'.mem, Floor(s, u), s.stacks[u].hi)
    ensures PendingOk(s', u)
  {
    KeptFrames(s.mem, s'.mem, s.stacks[u], Frames(s, u));
  }

  // ----- Every step keeps the invariant

  /** The part of the invariant about threads that were waiting before the step. */
  ghost predicate Waiting(s: State, s': State)
    requires |s.ring| > 0
  {
    forall u :: u in s.stacks && u != s.ring[0] ==>
      u in s'.stacks && Suspended(s', u) && PendingOk(s', u)
  }

  lemma StepKeepsWaiting(s: State, e: Event, s': State)
    requires Inv(s) && NextBy(s, e, s')
    ensures Waiting(s, s')
  {
    forall u | u in s.stacks && u != s.ring[0]
      ensures u in s'.stacks && Suspended(s', u) && PendingOk(s', u)
    {
      OthersKept(s, e, s', u);
      KeptSuspended(s, s', u);
      FloorInStack(s, u);
      KeptPending(s, s', u);
    }
  }

  /** Where the next_thread words lie: in the thread blocks, so writes to the running stack miss them. */
  lemma LinksKept(m: Ram, m': Ram, ring: seq<int>, stacks: map<int, Stack>)
    requires RingOf(ring, stacks) && RingLinked(m, ring)
    requires forall u :: u in stacks ==> Rd(m', u + 4) == Rd(m, u + 4)
    ensures RingLinked(m', ring)
  {
    forall i | 0 <= i < |ring|
      ensures LinkAt(m', ring, i)
    {
      assert LinkAt(m, ring, i);
    }
  }

  lemma WorkKeeps(s: State, s': State)
    requires Inv(s) && NextBy(s, Work, s')
    ensures Inv(s')
  {
    StepKeepsWaiting(s, Work, s');
    var t := s.ring[0];
    forall u | u in s.stacks
      ensures Rd(s'.mem, u + 4) == Rd(s.mem, u + 4)
    {
      assert SameWords(s.mem, s'.mem, u, u + 8);
    }
    LinksKept(s.mem, s'.mem, s.ring, s.stacks);
    KeptPending(s, s', t);
  }

  lemma RotatedLinks(mem: Ram, ring: seq<int>)
    requires RingLinked(mem, ring) && |ring| > 0
    ensures RingLinked(mem, ring[1..] + [ring[0]])
  {
    var r := ring[1..] + [ring[0]];
    forall i | 0 <= i < |r|
      ensures LinkAt(mem, r, i)
    {
      var j := if i + 1 == |r| then 0 else i + 1;
      assert r[i] == ring[j];
      assert LinkAt(mem, ring, j);
    }
  }

  lemma RotatedRing(ring: seq<int>, stacks: map<int, Stack>)
    requires RingOf(ring, stacks)
    ensures RingOf(ring[1..] + [ring[0]], stacks)
  {
    var r := ring[1..] + [ring[0]];
    assert ring == [ring[0]] + ring[1..];
    assert forall i :: 0 <= i < |r| ==> r[i] == ring[if i + 1 == |r| then 0 else i + 1];
  }

  lemma YieldLinks(s: State, e: Event, s': State)
    requires Inv(s) && NextBy(s, e, s') && IsSwitch(e)
    ensures RingLinked(s'.mem, s'.ring) && RingOf(s'.ring, s'.stacks)
  {
    var t := s.ring[0];
    FloorInStack(s, t);
    forall u | u in s.stacks
      ensures Rd(s'.mem, u + 4) == Rd(s.mem, u + 4)
    {
      BlocksApart(s, t, u);
    }
    LinksKept(s.mem, s'.mem, s.ring, s.stacks);
    RotatedLinks(s'.mem, s.ring);
    RotatedRing(s.ring, s.stacks);
  }

  /** The thread that yields is left with a switch frame of its own. */
  lemma YieldSuspends(s: State, e: Event, s': State)
    requires Inv(s) && NextBy(s, e, s') && IsSwitch(e)
    ensures Suspended(s', s.ring[0]) && PendingOk(s', s.ring[0])
  {
    var t := s.ring[0];
    FloorInStack(s, t);
    BlocksApart(s, t, t);
    assert SameWords(s.mem, s'.mem, Floor(s, t), s.stacks[t].hi);
    KeptPending(s, s', t);
  }

  /** The thread that is switched to runs on from its own switch frame. */
  lemma YieldResumes(s: State, e: Event, s': State)
    requires Inv(s) && NextBy(s, e, s') && IsSwitch(e)
    ensures var u := s.ring[1];
            && s'.ring[0] == u && u in s.stacks && u != s.ring[0] && Kept(s, s', u)
            && s'.cpu == Popped(s.mem, Rd(s.mem, u), s.cpu.eflags)
            && s'.cpu.esp % 4 == 0 && s.stacks[u].lo <= s'.cpu.esp <= Floor(s, u)
  {
    var u := s.ring[1];
    OthersKept(s, e, s', u);
    FloorInStack(s, u);
    assert Suspended(s, u);
    SameFrame(s.mem, s'.mem, Rd(s.mem, u));
  }

  lemma SameFrame(m: Ram, m': Ram, a: int)
    requires SameWords(m, m', a, a + 32)
    ensures forall eflags :: Popped(m', a, eflags) == Popped(m, a, eflags)
  {
    assert Rd(m', a) == Rd(m, a) && Rd(m', a + 4) == Rd(m, a + 4) && Rd(m', a + 8) == Rd(m, a + 8);
    assert Rd(m', a + 12) == Rd(m, a + 12) && Rd(m', a + 16) == Rd(m, a + 16) && Rd(m', a + 20) == Rd(m, a + 20);
    assert Rd(m', a + 24) == Rd(m, a + 24) && Rd(m', a + 28) == Rd(m, a + 28);
  }

  lemma YieldKeeps(s: State, e: Event, s': State)
    requires Inv(s) && NextBy(s, e, s') && IsSwitch(e)
    ensures Inv(s')
  {
    StepKeepsWaiting(s, e, s');
    YieldLinks(s, e, s');
    YieldSuspends(s, e, s');
    YieldResumes(s, e, s');
  }

  lemma AdvanceKeeps(s: State, s': State)
    requires Inv(s) && NextBy(s, Advance, s')
    ensures Inv(s')
  {
    forall t | t in s.stacks
      ensures PendingOk(s', t) && (t != s.ring[0] ==> Suspended(s', t))
    {
      assert PendingOk(s, t) && (t != s.ring[0] ==> Suspended(s, t));
    }
  }

  lemma EntryLinks(s: State, number: int, handler: int, s': State)
    requires Inv(s) && NextBy(s, Interrupt(number, handler), s')
    ensures RingLinked(s'.mem, s.ring)
  {
    var t := s.ring[0];
    FloorInStack(s, t);
    forall u | u in s.stacks
      ensures Rd(s'.mem, u + 4) == Rd(s.mem, u + 4)
    {
      BlocksApart(s, t, u);
    }
    LinksKept(s.mem, s'.mem, s.ring, s.stacks);
  }

  /** One more frame below all the others. */
  lemma FramesPushed(m: Ram, m': Ram, st: Stack, frames: seq<Interrupted>, f: Interrupted)
    requires FramesOk(m, st, frames) && SameWords(m, m', FloorOf(st, frames), st.hi)
    requires FrameOk(m', st, f) && f.context.esp <= FloorOf(st, frames)
    ensures FramesOk(m', st, frames + [f])
  {
    KeptFrames(m, m', st, frames);
    forall i | 0 <= i < |frames|
      ensures f.context.esp <= Base(frames[i])
    {
      var last := frames[|frames| - 1];
      assert frames[i] == last || last.context.esp <= Base(frames[i]);
    }
  }

  lemma EntryPending(s: State, number: int, handler: int, s': State)
    requires Inv(s) && NextBy(s, Interrupt(number, handler), s')
    ensures s.ring[0] in s'.stacks && PendingOk(s', s.ring[0])
    ensures s'.cpu.esp == Floor(s', s.ring[0]) >= s'.stacks[s.ring[0]].lo && s'.cpu.esp % 4 == 0
  {
    var t := s.ring[0];
    FloorInStack(s, t);
    assert PendingOk(s, t) && s.cpu.esp <= Floor(s, t);
    FramesPushed(s.mem, s'.mem, s.stacks[t], Frames(s, t), Interrupted(s.cpu, number));
  }

  lemma EntryKeeps(s: State, number: int, handler: int, s': State)
    requires Inv(s) && NextBy(s, Interrupt(number, handler), s')
    ensures Inv(s')
  {
    StepKeepsWaiting(s, Interrupt(number, handler), s');
    EntryLinks(s, number, handler, s');
    EntryPending(s, number, handler, s');
  }

  /** The innermost frame is the one iret goes back through, and below the others nothing is lost. */
  lemma FramesPopped(m: Ram, st: Stack, frames: seq<Interrupted>)
    requires FramesOk(m, st, frames) && frames != []
    ensures FramesOk(m, st, frames[..|frames| - 1])
    ensures Returned(m, FloorOf(st, frames)) == frames[|frames| - 1].context
    ensures var c := frames[|frames| - 1].context;
            c.esp % 4 == 0 && st.lo <= c.esp <= FloorOf(st, frames[..|frames| - 1])
  {
    assert FrameOk(m, st, frames[|frames| - 1]);
  }

  lemma ExitReturns(s: State, s': State)
    requires Inv(s) && NextBy(s, Return, s')
    ensures var frames := Frames(s, s.ring[0]);
            && frames != [] && s'.cpu == frames[|frames| - 1].context
            && Frames(s', s.ring[0]) == frames[..|frames| - 1] && PendingOk(s', s.ring[0])
    ensures s'.cpu.esp % 4 == 0 && s.stacks[s.ring[0]].lo <= s'.cpu.esp <= Floor(s', s.ring[0])
  {
    assert PendingOk(s, s.ring[0]);
    FramesPopped(s.mem, s.stacks[s.ring[0]], Frames(s, s.ring[0]));
  }

  lemma ExitKeeps(s: State, s': State)
    requires Inv(s) && NextBy(s, Return, s')
    ensures Inv(s')
  {
    StepKeepsWaiting(s, Return, s');
    ExitReturns(s, s');
  }

  lemma InsertedRing(ring: seq<int>, stacks: map<int, Stack>, thread: int, st: Stack)
    requires RingOf(ring, stacks) && thread !in stacks
    ensures RingOf([ring[0], thread] + ring[1..], stacks[thread := st])
  {
    var r := [ring[0], thread] + ring[1..];
    assert forall i :: 2 <= i < |r| ==> r[i] == ring[i - 1];
    forall t | t in stacks[thread := st]
      ensures t in r
    {
      if t != thread {
        var i :| 0 <= i < |ring| && ring[i] == t;
        assert i > 0 ==> r[i + 1] == t;
        assert r[0] == ring[0];
      } else {
        assert r[1] == thread;
      }
    }
  }

  lemma CreateKeepsLink(s: State, thread: int, base: int, entry: int, s': State, u: int)
    requires Inv(s) && NextBy(s, Create(thread, base, entry), s') && u in s.stacks && u != s.ring[0]
    ensures Rd(s'.mem, u + 4) == Rd(s.mem, u + 4)
  {
    NewBlockApart(s, thread, base, u);
    BlocksApart(s, s.ring[0], u);
  }

  /** A ring with one more thread after the first, when only the first one's link has changed. */
  lemma InsertedLinks(m: Ram, m': Ram, ring: seq<int>, thread: int)
    requires |ring| > 0 && RingLinked(m, ring)
    requires forall i :: 1 <= i < |ring| ==> Rd(m', ring[i] + 4) == Rd(m, ring[i] + 4)
    requires Rd(m', ring[0] + 4) == thread && Rd(m', thread + 4) == Rd(m, ring[0] + 4)
    ensures RingLinked(m', [ring[0], thread] + ring[1..])
  {
    var r := [ring[0], thread] + ring[1..];
    assert LinkAt(m, ring, 0);
    forall i | 0 <= i < |r|
      ensures LinkAt(m', r, i)
    {
      if i >= 2 {
        assert r[i] == ring[i - 1];
        assert LinkAt(m, ring, i - 1);
      }
    }
  }

  lemma CreateLinks(s: State, thread: int, base: int, entry: int, s': State)
    requires Inv(s) && NextBy(s, Create(thread, base, entry), s')
    ensures RingLinked(s'.mem, s'.ring)
  {
    forall i | 1 <= i < |s.ring|
      ensures Rd(s'.mem, s.ring[i] + 4) == Rd(s.mem, s.ring[i] + 4)
    {
      CreateKeepsLink(s, thread, base, entry, s', s.ring[i]);
    }
    InsertedLinks(s.mem, s'.mem, s.ring, thread);
  }

  /** The forged frame suspends the new thread. */
  lemma CreateSuspends(s: State, thread: int, base: int, entry: int, s': State)
    requires Inv(s) && NextBy(s, Create(thread, base, entry), s')
    ensures thread in s'.stacks && Suspended(s', thread) && PendingOk(s', thread)
  {
    assert thread !in s.pending;
    assert s'.stacks[thread] == Stack(base, base + 4096) && Aligned(thread, s'.stacks[thread]);
  }

  /** The creator's own stack is untouched. */
  lemma CreatorKept(s: State, thread: int, base: int, entry: int, s': State)
    requires Inv(s) && NextBy(s, Create(thread, base, entry), s')
    ensures s.ring[0] in s'.stacks && s'.stacks[s.ring[0]] == s.stacks[s.ring[0]] && PendingOk(s', s.ring[0])
    ensures Floor(s', s.ring[0]) == Floor(s, s.ring[0])
  {
    var t := s.ring[0];
    NewBlockApart(s, thread, base, t);
    BlocksApart(s, t, t);
    FloorInStack(s, t);
    assert PendingOk(s, t);
    KeptPending(s, s', t);
  }

  lemma CreateThreads(s: State, thread: int, base: int, entry: int, s': State, u: int)
    requires Inv(s) && NextBy(s, Create(thread, base, entry), s') && u in s'.stacks
    ensures PendingOk(s', u) && (u != s.ring[0] ==> Suspended(s', u))
  {
    if u == thread {
      CreateSuspends(s, thread, base, entry, s');
    } else if u == s.ring[0] {
      CreatorKept(s, thread, base, entry, s');
    } else {
      StepKeepsWaiting(s, Create(thread, base, entry), s');
    }
  }

  /** The invariant from its parts, for a step that leaves the processor and the running thread as they were. */
  lemma Reassembled(s: State, s': State)
    requires Inv(s) && s'.cpu == s.cpu && s'.ring != [] && s'.ring[0] == s.ring[0]
    requires RingOf(s'.ring, s'.stacks) && Disjoint(s'.stacks) && RingLinked(s'.mem, s'.ring)
    requires forall u {:trigger PendingOk(s', u)} :: u in s'.stacks ==> PendingOk(s', u)
    requires forall u {:trigger Suspended(s', u)} :: u in s'.stacks && u != s.ring[0] ==> Suspended(s', u)
    requires forall u :: u in s'.pending ==> u in s'.stacks
    requires s.ring[0] in s'.stacks && s'.stacks[s.ring[0]] == s.stacks[s.ring[0]]
    requires Floor(s', s.ring[0]) == Floor(s, s.ring[0]) && !s'.open
    ensures Inv(s')
  {
  }

  lemma CreateKeeps(s: State, thread: int, base: int, entry: int, s': State)
    requires Inv(s) && NextBy(s, Create(thread, base, entry), s')
    ensures Inv(s')
  {
    InsertedRing(s.ring, s.stacks, thread, Stack(base, base + 4096));
    CreateLinks(s, thread, base, entry, s');
    CreatorKept(s, thread, base, entry, s');
    forall u | u in s'.stacks
      ensures PendingOk(s', u) && (u != s.ring[0] ==> Suspended(s', u))
    {
      CreateThreads(s, thread, base, entry, s', u);
    }
    Reassembled(s, s');
  }

  lemma StepKeeps(s: State, e: Event, s': State)
    requires Inv(s) && NextBy(s, e, s')
    ensures Inv(s')
  {
    match e
    case Work => WorkKeeps(s, s');
    case Yield(ret) => YieldKeeps(s, e, s');
    case Switch(ret) => YieldKeeps(s, e, s');
    case Advance => AdvanceKeeps(s, s');
    case Interrupt(number, handler) => EntryKeeps(s, number, handler, s');
    case Return => ExitKeeps(s, s');
    case Create(thread, base, entry) => CreateKeeps(s, thread, base, entry, s');
  }

  // ----- A torn thread_yield

  /** It leaves the next thread with a saved esp in the stack of the interrupted one: what the next thread had saved
      is lost, and so is the invariant. */
  lemma TornYieldLoses(s: State, ret: int, s': State)
    requires Inv(s) && StepBy(s, Yield(ret), s') && s.open
    ensures var t, n := s.ring[0], s.ring[1];
            && t in s.stacks && n in s.stacks && n != t
            && Rd(s'.mem, n) == s.cpu.esp - 40
            && s.stacks[t].lo <= Rd(s'.mem, n) < s.stacks[t].hi
            && !(s.stacks[n].lo <= Rd(s'.mem, n) < s.stacks[n].hi)
    ensures !Inv(s')
  {
    var t, n := s.ring[0], s.ring[1];
    BlocksApart(s, t, n);
    FloorInStack(s, t);
    FloorInStack(s, n);
    assert s'.ring[0] != n && n in s'.stacks;
    assert Aligned(n, s.stacks[n]);
    if Inv(s') {
      assert Suspended(s', n);
      FloorInStack(s', n);
    }
  }

  /** A step of the kernel keeps the invariant exactly when it does not tear a thread_yield. */
  lemma StepKeepsExactly(s: State, e: Event, s': State)
    requires Inv(s) && StepBy(s, e, s')
    ensures Inv(s') <==> !Tears(s, e)
  {
    if Tears(s, e) {
      TornYieldLoses(s, e.ret, s');
    } else {
      StepKeeps(s, e, s');
    }
  }
}
