/** What every run of the kernel's threads guarantees: switching and preemption are invisible to a thread. */
module ThreadRuns {
  import opened Machine

  /** A run: any interleaving of the steps, from a state that satisfies the invariant. */
  ghost predicate Run(states: seq<State>, events: seq<Event>) {
    && |states| == |events| + 1
    && Inv(states[0])
    && forall i :: 0 <= i < |events| ==> StepAt(states, events, i)
  }

  ghost predicate StepAt(states: seq<State>, events: seq<Event>, i: int)
    requires 0 <= i < |events| < |states|
  {
    Inv(states[i]) ==> NextBy(states[i], events[i], states[i + 1])
  }

  lemma {:induction false} RunKeepsInv(states: seq<State>, events: seq<Event>, i: nat)
    requires Run(states, events) && i <= |events|
    ensures Inv(states[i])
  {
    if i > 0 {
      RunKeepsInv(states, events, i - 1);
      assert StepAt(states, events, i - 1);
      StepKeeps(states[i - 1], events[i - 1], states[i]);
    }
  }

  lemma RunStep(states: seq<State>, events: seq<Event>, i: nat)
    requires Run(states, events) && i < |events|
    ensures Inv(states[i]) && NextBy(states[i], events[i], states[i + 1]) && Inv(states[i + 1])
  {
    RunKeepsInv(states, events, i);
    RunKeepsInv(states, events, i + 1);
    assert StepAt(states, events, i);
  }

  /** Any interleaving of what the kernel can do, a timer's switch in the middle of another thread_yield included. */
  ghost predicate KernelRun(states: seq<State>, events: seq<Event>) {
    && |states| == |events| + 1
    && Inv(states[0])
    && forall i :: 0 <= i < |events| ==> KernelStepAt(states, events, i)
  }

  ghost predicate KernelStepAt(states: seq<State>, events: seq<Event>, i: int)
    requires 0 <= i < |events| < |states|
  {
    Inv(states[i]) ==> StepBy(states[i], events[i], states[i + 1])
  }

  /** None of the first n steps tears a thread_yield. */
  ghost predicate Untorn(states: seq<State>, events: seq<Event>, n: int) {
    0 <= n <= |events| < |states| && forall i :: 0 <= i < n ==> !Tears(states[i], events[i])
  }

  lemma {:induction false} UntornKeepsInv(states: seq<State>, events: seq<Event>, n: nat)
    requires KernelRun(states, events) && Untorn(states, events, n)
    ensures Inv(states[n])
  {
    if n > 0 {
      UntornKeepsInv(states, events, n - 1);
      assert KernelStepAt(states, events, n - 1);
      StepKeepsExactly(states[n - 1], events[n - 1], states[n]);
    }
  }

  lemma {:induction false} FirstTear(states: seq<State>, events: seq<Event>, n: nat) returns (i: nat)
    requires n <= |events| < |states| && !Untorn(states, events, n)
    ensures i < n && Tears(states[i], events[i]) && Untorn(states, events, i)
  {
    if Untorn(states, events, n - 1) {
      i := n - 1;
    } else {
      i := FirstTear(states, events, n - 1);
    }
  }

  /** The invariant holds all through a run of the kernel exactly when no step of it tears a thread_yield; and then it
      is a run to which everything below applies. */
  lemma RunExactly(states: seq<State>, events: seq<Event>)
    requires KernelRun(states, events)
    ensures (forall i :: 0 <= i < |states| ==> Inv(states[i])) <==> Untorn(states, events, |events|)
    ensures Untorn(states, events, |events|) ==> Run(states, events)
  {
    if Untorn(states, events, |events|) {
      forall i | 0 <= i < |states|
        ensures Inv(states[i])
      {
        UntornKeepsInv(states, events, i);
      }
      forall i | 0 <= i < |events|
        ensures StepAt(states, events, i)
      {
        assert KernelStepAt(states, events, i);
      }
    } else {
      var i := FirstTear(states, events, |events|);
      UntornKeepsInv(states, events, i);
      assert KernelStepAt(states, events, i);
      StepKeepsExactly(states[i], events[i], states[i + 1]);
      assert !Inv(states[i + 1]);
    }
  }

  // ----- A suspended thread

  lemma KeptTwice(a: State, b: State, c: State, u: int)
    requires u in a.stacks && Kept(a, b, u) && Kept(b, c, u)
    ensures Kept(a, c, u)
  {
    assert forall x :: a.stacks[u].lo <= x < a.stacks[u].hi ==> Rd(c.mem, x) == Rd(b.mem, x) == Rd(a.mem, x);
  }

  /** Thread t is not running in any state from i up to but not including j. */
  ghost predicate Away(states: seq<State>, i: nat, j: nat, t: int) {
    forall k {:trigger states[k]} :: i <= k < j && k < |states| && |states[k].ring| > 0 ==> states[k].ring[0] != t
  }

  lemma {:induction false} KeptWhileAway(states: seq<State>, events: seq<Event>, i: nat, j: nat, t: int)
    requires Run(states, events) && i <= j <= |events| && t in states[i].stacks
    requires Away(states, i, j, t)
    ensures Kept(states[i], states[j], t)
  {
    if i < j {
      KeptWhileAway(states, events, i, j - 1, t);
      RunStep(states, events, j - 1);
      OthersKept(states[j - 1], events[j - 1], states[j], t);
      KeptTwice(states[i], states[j - 1], states[j], t);
    }
  }

  /** Only a switch makes another thread current, and it loads that thread's own switch frame. */
  lemma BecomesCurrent(s: State, e: Event, s': State, t: int)
    requires Inv(s) && NextBy(s, e, s') && Inv(s') && s.ring[0] != t && s'.ring[0] == t
    ensures t in s.stacks && Kept(s, s', t)
    ensures s'.cpu == Popped(s.mem, Rd(s.mem, t), s.cpu.eflags)
  {
    match e
    case Work =>
    case Interrupt(number, handler) =>
    case Return =>
    case Create(thread, base, entry) =>
    case Yield(ret) => YieldResumes(s, e, s');
    case Switch(ret) => YieldResumes(s, e, s');
    case Advance =>
  }

  /** From suspension in state i to resumption in state j, whatever the other threads did in between. */
  lemma Resumption(states: seq<State>, events: seq<Event>, i: nat, j: nat, t: int)
    requires Run(states, events) && i < j <= |events| && t in states[i].stacks
    requires Away(states, i, j, t) && states[j].ring != [] && states[j].ring[0] == t
    ensures Kept(states[i], states[j], t) && Suspended(states[i], t)
    ensures states[j].cpu == Popped(states[i].mem, Rd(states[i].mem, t), states[j].cpu.eflags)
  {
    RunKeepsInv(states, events, i);
    RunStep(states, events, j - 1);
    KeptWhileAway(states, events, i, j - 1, t);
    BecomesCurrent(states[j - 1], events[j - 1], states[j], t);
    KeptTwice(states[i], states[j - 1], states[j], t);
    assert Suspended(states[i], t);
    FloorInStack(states[i], t);
    SameFrame(states[i].mem, states[j - 1].mem, Rd(states[i].mem, t));
  }

  /** The context switch_task promises to bring back: registers, return point, stack pointer. */
  ghost predicate SameContext(c: Cpu, ret: int, c': Cpu) {
    && c'.eax == c.eax && c'.ebx == c.ebx && c'.ecx == c.ecx && c'.edx == c.edx
    && c'.esi == c.esi && c'.edi == c.edi && c'.ebp == c.ebp
    && c'.eip == ret && c'.esp == c.esp - 8
  }

  ghost predicate SwitchesWith(e: Event, ret: int) {
    e == Yield(ret) || e == Switch(ret)
  }

  /** A thread that yields comes back, when it next runs, with the registers, stack pointer and return address
      it had at its call of switch_task, and with every word of its stack as it was. */
  lemma SwitchTransparent(states: seq<State>, events: seq<Event>, i: nat, j: nat, ret: int)
    requires Run(states, events) && i < j <= |events| && SwitchesWith(events[i], ret)
    requires states[i].ring != [] && states[j].ring != [] && states[j].ring[0] == states[i].ring[0]
    requires Away(states, i + 1, j, states[i].ring[0])
    ensures SameContext(states[i].cpu, ret, states[j].cpu)
    ensures var t := states[i].ring[0];
            && t in states[i].stacks && t in states[j].stacks && states[j].stacks[t] == states[i].stacks[t]
            && SameWords(states[i].mem, states[j].mem, states[i].cpu.esp, states[i].stacks[t].hi)
  {
    var t := states[i].ring[0];
    RunStep(states, events, i);
    assert states[i + 1].ring[0] == states[i].ring[1];
    Resumption(states, events, i + 1, j, t);
    BlocksApart(states[i], t, t);
    FloorInStack(states[i], t);
    forall a | states[i].cpu.esp <= a < states[i].stacks[t].hi
      ensures Rd(states[j].mem, a) == Rd(states[i].mem, a)
    {
      assert Rd(states[j].mem, a) == Rd(states[i + 1].mem, a);
    }
  }

  /** Since thread t advanced current_thread in state a its stack has not been changed: outside handlers it has its
      registers of then, and the outermost handler will give them back. */
  ghost predicate HeldOpen(a: State, m: State, t: int) {
    && m.open && m.ring == a.ring && a.ring != [] && a.ring[0] == t
    && t in a.stacks && t in m.stacks && m.stacks[t] == a.stacks[t]
    && (if Frames(m, t) == [] then m.cpu else Frames(m, t)[0].context) == a.cpu
    && SameWords(a.mem, m.mem, a.cpu.esp, a.stacks[t].hi)
  }

  lemma OpenStep(a: State, m: State, e: Event, m': State, t: int)
    requires Inv(m) && NextBy(m, e, m') && HeldOpen(a, m, t) && m'.open && a.cpu.esp <= a.stacks[t].hi
    ensures HeldOpen(a, m', t)
  {
    OwnFrames(m, e, m', t);
    if Frames(m, t) != [] {
      OuterAboveFloor(m, t, 1);
      if e == Return {
        ExitReturns(m, m');
      }
    }
    forall x | a.cpu.esp <= x < a.stacks[t].hi
      ensures Rd(m'.mem, x) == Rd(a.mem, x)
    {
      assert Rd(m.mem, x) == Rd(a.mem, x);
    }
  }

  /** The states after i up to k lie in one thread_yield. */
  ghost predicate OpenFrom(states: seq<State>, i: nat, k: nat) {
    forall m {:trigger states[m]} :: i < m <= k && m < |states| ==> states[m].open
  }

  lemma RunAdvances(states: seq<State>, events: seq<Event>, i: nat)
    requires Run(states, events) && i < |events| && events[i] == Advance
    ensures states[i].ring != [] && HeldOpen(states[i], states[i + 1], states[i].ring[0])
    ensures states[i].cpu.esp <= states[i].stacks[states[i].ring[0]].hi
  {
    RunStep(states, events, i);
    FloorInStack(states[i], states[i].ring[0]);
  }

  lemma RunOpenStep(a: State, states: seq<State>, events: seq<Event>, k: nat, t: int)
    requires Run(states, events) && k < |events| && HeldOpen(a, states[k], t) && states[k + 1].open
    requires a.cpu.esp <= a.stacks[t].hi
    ensures HeldOpen(a, states[k + 1], t)
  {
    RunStep(states, events, k);
    OpenStep(a, states[k], events[k], states[k + 1], t);
  }

  lemma {:induction false} OpenStays(states: seq<State>, events: seq<Event>, i: nat, k: nat)
    requires Run(states, events) && i < k <= |events| && events[i] == Advance && OpenFrom(states, i, k)
    ensures states[i].ring != [] && HeldOpen(states[i], states[k], states[i].ring[0])
    ensures states[i].cpu.esp <= states[i].stacks[states[i].ring[0]].hi
  {
    RunAdvances(states, events, i);
    if k > i + 1 {
      OpenStays(states, events, i, k - 1);
      RunOpenStep(states[i], states, events, k - 1, states[i].ring[0]);
    }
  }

  /** The same for a thread_yield that is interrupted on its way: from the advance of current_thread in step i, over
      whatever handlers run before the switch in step k and whatever threads run after it, back to the thread. */
  lemma YieldTransparent(states: seq<State>, events: seq<Event>, i: nat, k: nat, j: nat, ret: int)
    requires Run(states, events) && i < k < j <= |events|
    requires events[i] == Advance && OpenFrom(states, i, k) && events[k] == Switch(ret)
    requires states[i].ring != [] && states[j].ring != [] && states[j].ring[0] == states[i].ring[0]
    requires Away(states, k + 1, j, states[i].ring[0])
    ensures SameContext(states[i].cpu, ret, states[j].cpu)
    ensures var t := states[i].ring[0];
            && t in states[i].stacks
            && SameWords(states[i].mem, states[j].mem, states[i].cpu.esp, states[i].stacks[t].hi)
  {
    var t := states[i].ring[0];
    OpenStays(states, events, i, k);
    RunStep(states, events, k);
    SwitchTransparent(states, events, k, j, ret);
    SameWordsThrough(states[i].mem, states[k].mem, states[j].mem, states[i].cpu.esp, states[i].cpu.esp,
                     states[i].stacks[t].hi);
  }

  /** A created thread first runs at its entry point, with cleared registers and an empty stack. */
  lemma FreshThreadStarts(states: seq<State>, events: seq<Event>, i: nat, j: nat, t: int, base: int, entry: int)
    requires Run(states, events) && i < j <= |events| && events[i] == Create(t, base, entry)
    requires states[j].ring != [] && states[j].ring[0] == t && Away(states, i + 1, j, t)
    ensures states[j].cpu == Cpu(0, 0, 0, 0, 0, 0, 0, base + 4096, entry, states[j].cpu.eflags)
  {
    RunStep(states, events, i);
    assert states[i + 1].ring[0] == states[i].ring[0] != t;
    Resumption(states, events, i + 1, j, t);
  }

  // ----- A thread alone in the ring

  /** With nobody else in the ring the argument pushed is the saved esp of the last switch, read before this one
      saves its own: the call returns properly exactly when the two happen to be the same. */
  lemma SelfYield(s: State, ret: int, s': State)
    requires Inv(s) && |s.ring| == 1 && s.cpu.esp - 40 >= s.stacks[s.ring[0]].lo && Does(s, Yield(ret), s')
    ensures SameContext(s.cpu, ret, s'.cpu) <==> Rd(s.mem, s.ring[0]) == s.cpu.esp - 40
  {
  }

  /** So right after init_threads, when the saved esp is 0, main must not yield alone. */
  lemma SelfYieldAfterInit(s: State, ret: int, s': State)
    requires Inv(s) && |s.ring| == 1 && s.cpu.esp - 40 >= s.stacks[s.ring[0]].lo && Does(s, Yield(ret), s')
    requires Rd(s.mem, s.ring[0]) == 0 && s.stacks[s.ring[0]].lo > 0
    ensures s'.cpu.esp == 32 && !SameContext(s.cpu, ret, s'.cpu)
  {
    SelfYield(s, ret, s');
  }

  // ----- Preemption

  ghost function Depth(s: State, t: int): nat {
    |Frames(s, t)|
  }

  lemma OuterAboveFloor(s: State, t: int, d: nat)
    requires Inv(s) && t in s.stacks && 0 < d <= Depth(s, t)
    ensures Floor(s, t) <= Base(Frames(s, t)[d - 1]) < s.stacks[t].hi
  {
    assert PendingOk(s, t);
    var frames := Frames(s, t);
    assert FrameOk(s.mem, s.stacks[t], frames[d - 1]);
    assert d < |frames| ==> frames[|frames| - 1].context.esp <= Base(frames[d - 1]);
  }

  /** What a step does to the running thread's own unfinished interrupts and to its stack above them. */
  lemma OwnFrames(s: State, e: Event, s': State, t: int)
    requires Inv(s) && NextBy(s, e, s') && t == s.ring[0]
    ensures t in s.stacks && t in s'.stacks && s'.stacks[t] == s.stacks[t]
    ensures match e
            case Interrupt(number, _) => Frames(s', t) == Frames(s, t) + [Interrupted(s.cpu, number)]
            case Return => Frames(s, t) != [] && Frames(s', t) == Frames(s, t)[..Depth(s, t) - 1]
            case _ => Frames(s', t) == Frames(s, t)
    ensures SameWords(s.mem, s'.mem, Floor(s, t), s.stacks[t].hi)
  {
    FloorInStack(s, t);
    BlocksApart(s, t, t);
    match e
    case Work =>
    case Create(thread, base, entry) => NewBlockApart(s, thread, base, t);
    case Yield(ret) =>
    case Advance =>
    case Switch(ret) =>
    case Interrupt(number, handler) =>
    case Return =>
  }

  /** The outer d unfinished interrupts of t and all of its stack above their frames are as they were. */
  ghost predicate OuterKept(s: State, s': State, t: int, d: nat) {
    && t in s.stacks && t in s'.stacks && s'.stacks[t] == s.stacks[t]
    && 0 < d <= Depth(s, t) && d <= Depth(s', t)
    && Frames(s', t)[..d] == Frames(s, t)[..d]
    && SameWords(s.mem, s'.mem, Base(Frames(s, t)[d - 1]), s.stacks[t].hi)
  }

  lemma OuterKeptTwice(a: State, b: State, c: State, t: int, d: nat)
    requires OuterKept(a, b, t, d) && OuterKept(b, c, t, d)
    ensures OuterKept(a, c, t, d)
  {
    assert Frames(b, t)[d - 1] == Frames(b, t)[..d][d - 1] == Frames(a, t)[d - 1];
    var from := Base(Frames(a, t)[d - 1]);
    SameWordsThrough(a.mem, b.mem, c.mem, from, from, a.stacks[t].hi);
  }

  /** A step keeps them as long as at least d interrupts are unfinished. */
  lemma FramesStep(s: State, e: Event, s': State, t: int, d: nat)
    requires Inv(s) && NextBy(s, e, s') && t in s.stacks && 0 < d <= Depth(s, t) && d <= Depth(s', t)
    ensures OuterKept(s, s', t, d)
  {
    FloorInStack(s, t);
    OuterAboveFloor(s, t, d);
    if t == s.ring[0] {
      OwnFrames(s, e, s', t);
    } else {
      OthersKept(s, e, s', t);
    }
  }

  /** Thread t has at least d unfinished interrupts in all states from i to k. */
  ghost predicate Deep(states: seq<State>, i: nat, k: nat, t: int, d: nat) {
    forall m {:trigger states[m]} :: i <= m <= k && m < |states| ==> d <= Depth(states[m], t)
  }

  lemma RunFramesStep(states: seq<State>, events: seq<Event>, k: nat, t: int, d: nat)
    requires Run(states, events) && k < |events| && t in states[k].stacks
    requires 0 < d <= Depth(states[k], t) && d <= Depth(states[k + 1], t)
    ensures OuterKept(states[k], states[k + 1], t, d)
  {
    RunStep(states, events, k);
    FramesStep(states[k], events[k], states[k + 1], t, d);
  }

  lemma {:induction false} FramesStay(states: seq<State>, events: seq<Event>, i: nat, k: nat, t: int, d: nat)
    requires Run(states, events) && i <= k <= |events| && t in states[i].stacks
    requires 0 < d && Deep(states, i, k, t, d)
    ensures OuterKept(states[i], states[k], t, d)
  {
    if i < k {
      FramesStay(states, events, i, k - 1, t, d);
      RunFramesStep(states, events, k - 1, t, d);
      OuterKeptTwice(states[i], states[k - 1], states[k], t, d);
    }
  }

  /** Only a thread's own return from an interrupt leaves it with fewer unfinished ones, by one. */
  lemma OnlyReturnFinishes(s: State, e: Event, s': State, t: int)
    requires Inv(s) && NextBy(s, e, s') && t in s.stacks && Depth(s', t) < Depth(s, t)
    ensures e == Return && s.ring[0] == t && Depth(s', t) == Depth(s, t) - 1
    ensures s'.cpu == Frames(s, t)[Depth(s, t) - 1].context && s'.mem == s.mem
  {
    if t != s.ring[0] {
      OthersKept(s, e, s', t);
    }
    if e == Return {
      ExitReturns(s, s');
    }
  }

  lemma Interrupts(s: State, number: int, handler: int, s': State)
    requires Inv(s) && NextBy(s, Interrupt(number, handler), s')
    ensures var t := s.ring[0];
            && t in s.stacks && t in s'.stacks && s'.stacks[t] == s.stacks[t]
            && Frames(s', t) == Frames(s, t) + [Interrupted(s.cpu, number)]
            && SameWords(s.mem, s'.mem, s.cpu.esp, s.stacks[t].hi)
  {
  }

  lemma RunInterrupts(states: seq<State>, events: seq<Event>, i: nat)
    requires Run(states, events) && i < |events| && events[i].Interrupt?
    ensures states[i].ring != []
    ensures var t := states[i].ring[0];
            && t in states[i].stacks && t in states[i + 1].stacks && states[i + 1].stacks[t] == states[i].stacks[t]
            && Frames(states[i + 1], t) == Frames(states[i], t) + [Interrupted(states[i].cpu, events[i].number)]
            && SameWords(states[i].mem, states[i + 1].mem, states[i].cpu.esp, states[i].stacks[t].hi)
  {
    RunStep(states, events, i);
    Interrupts(states[i], events[i].number, events[i].handler, states[i + 1]);
  }

  lemma SameWordsThrough(a: Ram, b: Ram, c: Ram, lo: int, lo': int, hi: int)
    requires SameWords(a, b, lo, hi) && SameWords(b, c, lo', hi) && lo' <= lo
    ensures SameWords(a, c, lo, hi)
  {
    assert forall x :: lo <= x < hi ==> Rd(c, x) == Rd(b, x) == Rd(a, x);
  }

  /** A thread interrupted in state i at any point, inside other handlers included, goes on with all its registers,
      flags, instruction pointer and stack as they were once that interrupt is finished: in the first state after i
      in which it has no more unfinished interrupts than before, whoever ran and whatever else interrupted it. */
  lemma PreemptionTransparent(states: seq<State>, events: seq<Event>, i: nat, k: nat, number: int, handler: int)
    requires Run(states, events) && i < k < |events| && events[i] == Interrupt(number, handler)
    requires states[i].ring != []
    requires Deep(states, i + 1, k, states[i].ring[0], Depth(states[i], states[i].ring[0]) + 1)
    requires Depth(states[k + 1], states[i].ring[0]) <= Depth(states[i], states[i].ring[0])
    ensures events[k] == Return && states[k].ring != [] && states[k].ring[0] == states[i].ring[0]
    ensures states[k + 1].cpu == states[i].cpu
    ensures Depth(states[k + 1], states[i].ring[0]) == Depth(states[i], states[i].ring[0])
    ensures var t := states[i].ring[0];
            && t in states[i].stacks
            && SameWords(states[i].mem, states[k + 1].mem, states[i].cpu.esp, states[i].stacks[t].hi)
  {
    var t := states[i].ring[0];
    var d := Depth(states[i], t) + 1;
    RunInterrupts(states, events, i);
    FramesStay(states, events, i + 1, k, t, d);
    assert Frames(states[k], t)[..d][d - 1] == Frames(states[i + 1], t)[d - 1];
    FinishesInner(states, events, k, t);
    SameWordsThrough(states[i].mem, states[i + 1].mem, states[k + 1].mem, states[i].cpu.esp,
                     Base(Frames(states[i + 1], t)[d - 1]), states[i].stacks[t].hi);
  }

  lemma FinishesInner(states: seq<State>, events: seq<Event>, k: nat, t: int)
    requires Run(states, events) && k < |events| && t in states[k].stacks
    requires Depth(states[k + 1], t) < Depth(states[k], t)
    ensures events[k] == Return && states[k].ring != [] && states[k].ring[0] == t
    ensures Depth(states[k + 1], t) == Depth(states[k], t) - 1
    ensures states[k + 1].cpu == Frames(states[k], t)[Depth(states[k], t) - 1].context
    ensures states[k + 1].mem == states[k].mem
  {
    RunStep(states, events, k);
    OnlyReturnFinishes(states[k], events[k], states[k + 1], t);
  }

  // ----- The run queue

  ghost function Switches(events: seq<Event>): nat {
    if events == [] then 0
    else Switches(events[..|events| - 1]) + if IsSwitch(events[|events| - 1]) then 1 else 0
  }

  ghost predicate NoCreation(events: seq<Event>) {
    forall i :: 0 <= i < |events| ==> !events[i].Create?
  }

  /** The ring turned by m places. */
  ghost function Turned(ring: seq<int>, m: nat): seq<int>
    requires m <= |ring|
  {
    ring[m..] + ring[..m]
  }

  lemma PrefixRun(states: seq<State>, events: seq<Event>)
    requires Run(states, events) && events != []
    ensures Run(states[..|events|], events[..|events| - 1])
  {
    var first, before := states[..|events|], events[..|events| - 1];
    forall i | 0 <= i < |before|
      ensures StepAt(first, before, i)
    {
      assert StepAt(states, events, i);
      assert first[i] == states[i] && before[i] == events[i] && first[i + 1] == states[i + 1];
    }
  }

  lemma RingStep(s: State, e: Event, s': State)
    requires Inv(s) && NextBy(s, e, s')
    ensures s'.ring == match e
                       case Yield(_) => s.ring[1..] + [s.ring[0]]
                       case Switch(_) => s.ring[1..] + [s.ring[0]]
                       case Create(t, _, _) => [s.ring[0], t] + s.ring[1..]
                       case _ => s.ring
    ensures s'.stacks.Keys == s.stacks.Keys + if e.Create? then {e.thread} else {}
  {
  }

  lemma RunRing(states: seq<State>, events: seq<Event>, i: nat)
    requires Run(states, events) && i < |events|
    ensures states[i].ring != []
    ensures states[i + 1].ring == match events[i]
                                  case Yield(_) => states[i].ring[1..] + [states[i].ring[0]]
                                  case Switch(_) => states[i].ring[1..] + [states[i].ring[0]]
                                  case Create(t, _, _) => [states[i].ring[0], t] + states[i].ring[1..]
                                  case _ => states[i].ring
  {
    RunStep(states, events, i);
    RingStep(states[i], events[i], states[i + 1]);
  }

  lemma TurnedOnce(ring: seq<int>, m: nat)
    requires m < |ring|
    ensures Turned(ring, m)[1..] + [Turned(ring, m)[0]] == Turned(ring, m + 1)
  {
  }

  /** Up to a full round of switches, with any other steps among them, each switch moves the ring on by one:
      after m of them the thread m places on runs, and after |ring| the first one again. */
  lemma {:induction false} RoundRobin(states: seq<State>, events: seq<Event>)
    requires Run(states, events) && NoCreation(events) && Switches(events) <= |states[0].ring|
    ensures states[|events|].ring == Turned(states[0].ring, Switches(events))
    decreases |events|
  {
    if events != [] {
      var last := |events| - 1;
      RunRing(states, events, last);
      PrefixRun(states, events);
      RoundRobin(states[..|events|], events[..last]);
      if IsSwitch(events[last]) {
        TurnedOnce(states[0].ring, Switches(events[..last]));
      }
    }
  }

  /** Neither a switch nor a creation from step i up to but not including step j. */
  ghost predicate Quiet(events: seq<Event>, i: nat, j: nat) {
    forall k :: i <= k < j && k < |events| ==> !IsSwitch(events[k]) && !events[k].Create?
  }

  lemma {:induction false} StaysSecond(states: seq<State>, events: seq<Event>, i: nat, j: nat, t: int)
    requires Run(states, events) && i < j <= |events| && events[i].Create? && events[i].thread == t
    requires Quiet(events, i + 1, j)
    ensures |states[j].ring| > 1 && states[j].ring[1] == t
  {
    RunRing(states, events, j - 1);
    if i < j - 1 {
      StaysSecond(states, events, i, j - 1, t);
    }
  }

  /** The thread created last is the next to run, whoever switches. */
  lemma NewestRunsNext(states: seq<State>, events: seq<Event>, i: nat, j: nat, t: int)
    requires Run(states, events) && i < j < |events| && events[i].Create? && events[i].thread == t
    requires Quiet(events, i + 1, j) && IsSwitch(events[j])
    ensures states[j + 1].ring != [] && states[j + 1].ring[0] == t
  {
    StaysSecond(states, events, i, j, t);
    RunRing(states, events, j);
  }

  ghost function Created(events: seq<Event>): set<int> {
    set i | 0 <= i < |events| && events[i].Create? :: events[i].thread
  }

  lemma CreatedSnoc(events: seq<Event>)
    requires events != []
    ensures var last := events[|events| - 1];
            Created(events) == Created(events[..|events| - 1]) + if last.Create? then {last.thread} else {}
  {
    var before := events[..|events| - 1];
    assert forall i :: 0 <= i < |before| ==> before[i] == events[i];
  }

  lemma {:induction false} ThreadsOfRun(states: seq<State>, events: seq<Event>)
    requires Run(states, events)
    ensures states[|events|].stacks.Keys == states[0].stacks.Keys + Created(events)
    decreases |events|
  {
    if events != [] {
      var last := |events| - 1;
      RunStep(states, events, last);
      RingStep(states[last], events[last], states[last + 1]);
      PrefixRun(states, events);
      ThreadsOfRun(states[..|events|], events[..last]);
      CreatedSnoc(events);
    }
  }

  /** The ring always holds the threads there were at the start and those created since, each once. */
  lemma RingHoldsAll(states: seq<State>, events: seq<Event>)
    requires Run(states, events)
    ensures var s := states[|events|];
            && RingOf(s.ring, s.stacks) && RingLinked(s.mem, s.ring)
            && (forall t :: t in s.ring <==> t in states[0].stacks || t in Created(events))
  {
    RunKeepsInv(states, events, |events|);
    ThreadsOfRun(states, events);
    var s := states[|events|];
    forall t
      ensures t in s.ring <==> t in s.stacks.Keys
    {
    }
  }
}
