/** thread.c, switch_task.s and the interrupt entry of interrupt.s, instruction by instruction. */
module Threads {
  import opened Machine

  class Processor {
    var cpu: Cpu
    var mem: Ram
    /** The variable current_thread: the address of a thread block, a saved esp and a next pointer. */
    var currentThread: int

    ghost var ring: seq<int>
    ghost var stacks: map<int, Stack>
    ghost var pending: map<int, seq<Interrupted>>
    ghost var open: bool

    ghost function Now(): State
      reads this
    {
      State(cpu, mem, ring, stacks, pending, open)
    }

    ghost predicate Valid()
      reads this
    {
      Inv(Now()) && currentThread == Current(Now())
    }

    constructor (cpu: Cpu, mem: Ram)
      ensures this.cpu == cpu && this.mem == mem && pending == map[] && !open
    {
      this.cpu, this.mem, currentThread := cpu, mem, 0;
      ring, stacks, pending, open := [], map[], map[], false;
    }

    // ----- Instructions

    method Push(w: int)
      modifies this`cpu, this`mem
      ensures cpu == old(cpu).(esp := old(cpu).esp - 4) && mem == old(mem)[old(cpu).esp - 4 := w]
    {
      cpu := cpu.(esp := cpu.esp - 4);
      mem := mem[cpu.esp := w];
    }

    method Pop() returns (w: int)
      modifies this`cpu
      ensures cpu == old(cpu).(esp := old(cpu).esp + 4) && w == Rd(mem, old(cpu).esp)
    {
      w := Rd(mem, cpu.esp);
      cpu := cpu.(esp := cpu.esp + 4);
    }

    /** push eax, ebx, ecx, edx, esi, edi, ebp */
    method PushRegisters()
      modifies this`cpu, this`mem
      ensures cpu == old(cpu).(esp := old(cpu).esp - 28)
      ensures mem == PushedRegisters(old(mem), old(cpu))
    {
      Push(cpu.eax);
      Push(cpu.ebx);
      Push(cpu.ecx);
      Push(cpu.edx);
      Push(cpu.esi);
      Push(cpu.edi);
      Push(cpu.ebp);
    }

    /** pop ebp, edi, esi, edx, ecx, ebx, eax */
    method PopRegisters()
      modifies this`cpu
      ensures cpu == PoppedRegisters(mem, old(cpu))
    {
      var w := Pop();
      cpu := cpu.(ebp := w);
      w := Pop();
      cpu := cpu.(edi := w);
      w := Pop();
      cpu := cpu.(esi := w);
      w := Pop();
      cpu := cpu.(edx := w);
      w := Pop();
      cpu := cpu.(ecx := w);
      w := Pop();
      cpu := cpu.(ebx := w);
      w := Pop();
      cpu := cpu.(eax := w);
    }

    // ----- switch_task

    /** Entered with the return address on top of the stack, then the address where the old esp goes, then the
        new esp. That address lies in a thread block, apart from this part of the stack. */
    method SwitchTask()
      requires !(cpu.esp - 28 <= Rd(mem, cpu.esp + 4) < cpu.esp + 12)
      modifies this`cpu, this`mem
      ensures mem == SwitchedMem(old(mem), old(cpu))
      ensures cpu == Popped(mem, Rd(old(mem), old(cpu.esp) + 8), old(cpu).eflags)
      ensures var e := old(cpu).esp;
              && Rd(mem, e - 4) == old(cpu).eax && Rd(mem, e - 8) == old(cpu).ebx && Rd(mem, e - 12) == old(cpu).ecx
              && Rd(mem, e - 16) == old(cpu).edx && Rd(mem, e - 20) == old(cpu).esi && Rd(mem, e - 24) == old(cpu).edi
              && Rd(mem, e - 28) == old(cpu).ebp && Rd(mem, Rd(old(mem), e + 4)) == e - 28
      ensures var e := Rd(old(mem), old(cpu).esp + 8);
              && cpu.ebp == Rd(mem, e) && cpu.edi == Rd(mem, e + 4) && cpu.esi == Rd(mem, e + 8)
              && cpu.edx == Rd(mem, e + 12) && cpu.ecx == Rd(mem, e + 16) && cpu.ebx == Rd(mem, e + 20)
              && cpu.eax == Rd(mem, e + 24) && cpu.eip == Rd(mem, e + 28) && cpu.esp == e + 32
    {
      SaveContext();
      LoadContext(Rd(mem, cpu.esp + 36));
    }

    /** Up to the store of esp: the new esp is still where the caller left it. */
    method SaveContext()
      requires !(cpu.esp - 28 <= Rd(mem, cpu.esp + 4) < cpu.esp + 12)
      modifies this`cpu, this`mem
      ensures mem == SwitchedMem(old(mem), old(cpu)) && cpu.eflags == old(cpu).eflags
      ensures Rd(mem, cpu.esp + 36) == Rd(old(mem), old(cpu).esp + 8)
    {
      ArgumentsKept(mem, cpu);
      PushRegisters();
      cpu := cpu.(eax := Rd(mem, cpu.esp + 32));
      mem := mem[cpu.eax := cpu.esp];
    }

    /** From the load of the new esp to ret. */
    method LoadContext(newEsp: int)
      modifies this`cpu
      ensures cpu == Popped(mem, newEsp, old(cpu).eflags)
    {
      cpu := cpu.(esp := newEsp);
      PopRegisters();
      var eip := Pop();
      cpu := cpu.(eip := eip);
    }

    // ----- thread.c

    /** The first thread: a ring of one whose saved esp is 0. */
    method InitThreads(mainThread: int, stack: Stack)
      requires Aligned(mainThread, stack) && Apart(mainThread, mainThread + 8, stack.lo, stack.hi)
      requires pending == map[] && !open && cpu.esp % 4 == 0 && stack.lo <= cpu.esp <= stack.hi
      modifies this
      ensures Valid() && ring == [mainThread] && stacks == map[mainThread := stack] && pending == map[]
      ensures cpu == old(cpu) && Rd(mem, mainThread) == 0 && !open
      ensures forall a {:trigger Rd(mem, a)} ::
                !(mainThread <= a < mainThread + 8) ==> Rd(mem, a) == Rd(old(mem), a)
    {
      mem := mem[mainThread := 0];
      mem := mem[mainThread + 4 := mainThread];
      currentThread := mainThread;
      ring, stacks := [mainThread], map[mainThread := stack];
      assert LinkAt(mem, ring, 0);
    }

    /** create_thread, given what its two calls of malloc returned. */
    method CreateThread(newThread: int, stack: int, entry: int)
      requires Valid() && !open
      requires newThread !in stacks && Disjoint(stacks[newThread := Stack(stack, stack + 4096)])
      modifies this
      ensures Valid() && NextBy(old(Now()), Create(newThread, stack, entry), Now())
    {
      var top := stack + 4096;
      ForgeFrame(top, entry);
      LinkThread(newThread, top - 32, stack);
      NewThreadStep(old(Now()), newThread, stack, entry, Now());
      StepKeeps(old(Now()), Create(newThread, stack, entry), Now());
    }

    /** Lines 29-39: the entry point and seven zeros, downwards from the top. */
    method ForgeFrame(top: int, entry: int)
      modifies this`mem
      ensures mem == Forged(old(mem), top, entry)
    {
      var stackTop := top - 4;
      mem := mem[stackTop := entry];
      var i := 0;
      while i < 7
        invariant 0 <= i <= 7 && stackTop == top - 4 - 4 * i
        invariant mem == ZerosBelow(old(mem)[top - 4 := entry], top - 4, i)
      {
        stackTop := stackTop - 4;
        mem := mem[stackTop := 0];
        i := i + 1;
      }
    }

    /** Lines 43-45. */
    method LinkThread(newThread: int, esp: int, ghost stack: int)
      requires |ring| > 0 && currentThread == ring[0]
      modifies this
      ensures cpu == old(cpu) && currentThread == old(currentThread) && pending == old(pending) && open == old(open)
      ensures ring == [old(ring)[0], newThread] + old(ring)[1..]
      ensures stacks == old(stacks)[newThread := Stack(stack, stack + 4096)]
      ensures mem == LinkedMem(old(mem), currentThread, newThread, esp)
    {
      mem := mem[newThread := esp];
      mem := mem[newThread + 4 := Rd(mem, currentThread + 4)];
      mem := mem[currentThread + 4 := newThread];
      ring := [ring[0], newThread] + ring[1..];
      stacks := stacks[newThread := Stack(stack, stack + 4096)];
    }

    /** Line 109. From here on current_thread is one thread and the stack another's. */
    method AdvanceCurrent() returns (oldThread: int)
      requires Valid() && |ring| > 1 && !open && Frames(Now(), ring[0]) == []
      modifies this`currentThread, this`open
      ensures Valid() && NextBy(old(Now()), Advance, Now()) && oldThread == ring[0]
    {
      assert LinkAt(mem, ring, 0);
      oldThread := currentThread;
      currentThread := Rd(mem, currentThread + 4);
      open := true;
      StepKeeps(old(Now()), Advance, Now());
    }

    /** Line 112, with the return address of its call. current_thread is read again. */
    method SwitchStack(oldThread: int, ret: int)
      requires Valid() && InWindow(Now()) && oldThread == ring[0] && cpu.esp - 40 >= stacks[ring[0]].lo
      modifies this
      ensures Valid() && NextBy(old(Now()), Switch(ret), Now())
    {
      ghost var before := Now();
      BlocksApart(before, ring[0], ring[0]);
      FloorInStack(before, ring[0]);
      CallSwitchTask(oldThread, Rd(mem, currentThread), ret);
      NextIsFirst(ring);
      ring, open := ring[1..] + [ring[0]], false;
      SwitchIsYield(before, ret, Now());
      StepKeeps(before, Switch(ret), Now());
    }

    /** thread_yield when nothing interrupts it, with the return address of its call of switch_task. What it does it
        does in any ring, and in a handler that has interrupted another thread_yield; the invariant is kept when there
        is another thread to switch to and no other thread_yield is torn. */
    method ThreadYield(ret: int)
      requires Valid() && !InWindow(Now()) && cpu.esp - 40 >= stacks[ring[0]].lo
      modifies this
      ensures Does(old(Now()), Yield(ret), Now())
      ensures |old(ring)| > 1 ==>
                StepBy(old(Now()), Yield(ret), Now()) && (Valid() <==> !Tears(old(Now()), Yield(ret)))
    {
      ghost var before := Now();
      YieldReady(before);
      SwitchToNext(ret);
      if |before.ring| > 1 {
        StepKeepsExactly(before, Yield(ret), Now());
      }
    }

    method SwitchToNext(ret: int)
      requires |ring| > 0 && (open ==> |ring| > 1) && currentThread == Current(Now())
      requires Rd(mem, currentThread + 4) == if open then AfterNext(ring) else NextOf(ring)
      requires !(cpu.esp - 40 <= currentThread < cpu.esp)
      modifies this
      ensures Does(old(Now()), Yield(ret), Now()) && currentThread == ring[0] && !open
    {
      ghost var before := Now();
      var oldThread := currentThread;
      currentThread := Rd(mem, currentThread + 4);
      CallSwitchTask(oldThread, Rd(mem, currentThread), ret);
      NextIsFirst(ring);
      if before.open {
        ring, open := if |ring| > 2 then ring[2..] + ring[..2] else ring, false;
        SwitchIsTorn(before, ret, Now());
      } else {
        ring := ring[1..] + [ring[0]];
        SwitchIsYield(before, ret, Now());
      }
    }

    /** The call: arguments right to left, the return address, the body. */
    method CallSwitchTask(oldEspPtr: int, newEsp: int, ret: int)
      requires !(cpu.esp - 40 <= oldEspPtr < cpu.esp)
      modifies this`cpu, this`mem
      ensures Called(old(mem), mem, old(cpu), oldEspPtr, newEsp, ret)
      ensures cpu == Popped(mem, newEsp, old(cpu).eflags)
    {
      PushCall(oldEspPtr, newEsp, ret);
      SwitchTask();
      CalledFrame(old(mem), old(cpu), oldEspPtr, newEsp, ret);
    }

    method PushCall(oldEspPtr: int, newEsp: int, ret: int)
      modifies this`cpu, this`mem
      ensures cpu == old(cpu).(esp := old(cpu).esp - 12)
      ensures mem == PushedCall(old(mem), old(cpu), oldEspPtr, newEsp, ret)
      ensures Rd(mem, cpu.esp + 4) == oldEspPtr && Rd(mem, cpu.esp + 8) == newEsp
    {
      Push(newEsp);
      Push(oldEspPtr);
      Push(ret);
    }

    // ----- interrupt.s

    /** The hardware's three pushes, the macro's two, the common handler's seven, and the jump to C. */
    method InterruptEntry(number: int, handler: int)
      requires Valid() && (number == TIMER || number == KEYBOARD) && InterruptsOn(cpu.eflags)
      requires cpu.esp - INTERRUPT_FRAME >= stacks[ring[0]].lo
      modifies this
      ensures Valid() && NextBy(old(Now()), Interrupt(number, handler), Now())
      ensures !InterruptsOn(cpu.eflags) && cpu.eip == handler && cpu.esp == old(cpu).esp - 48
      ensures var e := old(cpu).esp;
              && Rd(mem, e - 4) == old(cpu).eflags && Rd(mem, e - 8) == 8 && Rd(mem, e - 12) == old(cpu).eip
              && Rd(mem, e - 16) == 0 && Rd(mem, e - 20) == number
    {
      PushInterrupt(number, handler);
      StepKeeps(old(Now()), Interrupt(number, handler), Now());
    }

    method PushInterrupt(number: int, handler: int)
      requires |ring| > 0
      modifies this
      ensures Does(old(Now()), Interrupt(number, handler), Now()) && currentThread == old(currentThread)
      ensures open == old(open) && ring == old(ring)
    {
      pending := pending[ring[0] := Frames(Now(), ring[0]) + [Interrupted(cpu, number)]];
      PushContext(number, handler);
      ContextIsEntry(old(Now()), number, handler, Now());
    }

    method PushContext(number: int, handler: int)
      modifies this`cpu, this`mem
      ensures mem == InterruptedMem(old(mem), old(cpu), number)
      ensures cpu == old(cpu).(esp := old(cpu).esp - INTERRUPT_FRAME, eip := handler,
                               eflags := old(cpu).eflags - 512)
    {
      Push(cpu.eflags);
      Push(CODE_SELECTOR);
      Push(cpu.eip);
      cpu := cpu.(eflags := cpu.eflags - 512);
      Push(0);
      Push(number);
      PushRegisters();
      cpu := cpu.(eip := handler);
    }

    /** The C handler has returned to the common handler. */
    method InterruptExit()
      requires Valid() && Frames(Now(), ring[0]) != [] && cpu.esp == Floor(Now(), ring[0])
      modifies this
      ensures Valid() && NextBy(old(Now()), Return, Now())
      ensures var frames := Frames(old(Now()), old(ring)[0]); cpu == frames[|frames| - 1].context
    {
      ghost var before := Now();
      PopInterrupt();
      ExitReturns(before, Now());
      StepKeeps(before, Return, Now());
    }

    method PopInterrupt()
      requires |ring| > 0 && Frames(Now(), ring[0]) != []
      modifies this
      ensures Does(old(Now()), Return, Now()) && currentThread == old(currentThread)
      ensures open == old(open) && ring == old(ring)
    {
      PopRegisters();
      cpu := cpu.(esp := cpu.esp + 8);
      var eip := Pop();
      var cs := Pop();
      var eflags := Pop();
      cpu := cpu.(eip := eip, eflags := eflags);
      pending := pending[ring[0] := Frames(Now(), ring[0])[..|Frames(Now(), ring[0])| - 1]];
    }
  }

  // ----- What the instruction sequences leave behind

  ghost function PushedRegisters(m: Ram, c: Cpu): Ram {
    m[c.esp - 4 := c.eax][c.esp - 8 := c.ebx][c.esp - 12 := c.ecx][c.esp - 16 := c.edx]
     [c.esp - 20 := c.esi][c.esp - 24 := c.edi][c.esp - 28 := c.ebp]
  }

  ghost function SwitchedMem(m: Ram, c: Cpu): Ram {
    PushedRegisters(m, c)[Rd(m, c.esp + 4) := c.esp - 28]
  }

  lemma ArgumentsKept(m: Ram, c: Cpu)
    ensures forall a :: a >= c.esp ==> Rd(PushedRegisters(m, c), a) == Rd(m, a)
    ensures !(c.esp - 28 <= Rd(m, c.esp + 4) < c.esp + 12) ==>
              Rd(SwitchedMem(m, c), c.esp + 8) == Rd(m, c.esp + 8)
  {
  }

  /** Memory after thread_yield's call of switch_task has saved everything. */
  ghost function CalledMem(m: Ram, c: Cpu, oldEspPtr: int, newEsp: int, ret: int): Ram {
    SwitchedMem(PushedCall(m, c, oldEspPtr, newEsp, ret), c.(esp := c.esp - 12))
  }

  ghost function PushedCall(m: Ram, c: Cpu, oldEspPtr: int, newEsp: int, ret: int): Ram {
    m[c.esp - 4 := newEsp][c.esp - 8 := oldEspPtr][c.esp - 12 := ret]
  }

  /** The frame, the arguments above it and the saved esp, and nothing else. */
  ghost predicate Called(m: Ram, m': Ram, c: Cpu, t: int, newEsp: int, ret: int) {
    && SwitchFrame(m', c.esp - 40, c, ret) && Rd(m', c.esp - 8) == t && Rd(m', c.esp - 4) == newEsp
    && Rd(m', t) == c.esp - 40
    && forall a {:trigger Rd(m', a)} :: !(c.esp - 40 <= a < c.esp) && a != t ==> Rd(m', a) == Rd(m, a)
  }

  lemma CalledFrame(m: Ram, c: Cpu, t: int, newEsp: int, ret: int)
    requires !(c.esp - 40 <= t < c.esp)
    ensures Called(m, CalledMem(m, c, t, newEsp, ret), c, t, newEsp, ret)
  {
  }

  lemma NextIsFirst(ring: seq<int>)
    requires |ring| > 0
    ensures (ring[1..] + [ring[0]])[0] == NextOf(ring)
  {
  }

  /** Where thread_yield finds the next thread, and that its own block is out of the way of its pushes. */
  lemma YieldReady(s: State)
    requires Inv(s)
    ensures Rd(s.mem, Current(s) + 4) == if s.open then AfterNext(s.ring) else NextOf(s.ring)
    ensures s.cpu.esp - 40 >= s.stacks[s.ring[0]].lo ==> !(s.cpu.esp - 40 <= Current(s) < s.cpu.esp)
  {
    assert LinkAt(s.mem, s.ring, 0) && (s.open ==> LinkAt(s.mem, s.ring, 1));
    BlocksApart(s, s.ring[0], Current(s));
    FloorInStack(s, s.ring[0]);
  }

  /** What a call of switch_task from thread t's block to thread u's saved esp amounts to. */
  lemma CalledSwitches(s: State, t: int, u: int, ret: int, s': State)
    requires Called(s.mem, s'.mem, s.cpu, t, Rd(s.mem, u), ret)
    requires s'.cpu == Popped(s'.mem, Rd(s.mem, u), s.cpu.eflags)
    requires s'.stacks == s.stacks && s'.pending == s.pending && !s'.open
    ensures SwitchStep(s, t, u, ret, s')
  {
  }

  lemma SwitchIsYield(s: State, ret: int, s': State)
    requires |s.ring| > 0
    requires Called(s.mem, s'.mem, s.cpu, s.ring[0], Rd(s.mem, NextOf(s.ring)), ret)
    requires s'.cpu == Popped(s'.mem, Rd(s.mem, NextOf(s.ring)), s.cpu.eflags)
    requires s'.ring == s.ring[1..] + [s.ring[0]]
    requires s'.stacks == s.stacks && s'.pending == s.pending && !s'.open
    ensures Does(s, Switch(ret), s') && (!s.open ==> Does(s, Yield(ret), s'))
  {
    CalledSwitches(s, s.ring[0], NextOf(s.ring), ret, s');
  }

  lemma SwitchIsTorn(s: State, ret: int, s': State)
    requires |s.ring| > 0 && s.open
    requires Called(s.mem, s'.mem, s.cpu, NextOf(s.ring), Rd(s.mem, AfterNext(s.ring)), ret)
    requires s'.cpu == Popped(s'.mem, Rd(s.mem, AfterNext(s.ring)), s.cpu.eflags)
    requires s'.ring == if |s.ring| > 2 then s.ring[2..] + s.ring[..2] else s.ring
    requires s'.stacks == s.stacks && s'.pending == s.pending && !s'.open
    ensures Does(s, Yield(ret), s')
  {
    CalledSwitches(s, NextOf(s.ring), AfterNext(s.ring), ret, s');
  }

  /** Memory after the twelve pushes of an interrupt. */
  ghost function InterruptedMem(m: Ram, c: Cpu, number: int): Ram {
    PushedRegisters(m[c.esp - 4 := c.eflags][c.esp - 8 := CODE_SELECTOR][c.esp - 12 := c.eip][c.esp - 16 := 0]
                     [c.esp - 20 := number], c.(esp := c.esp - 20))
  }

  lemma PushedContext(m: Ram, c: Cpu, number: int)
    ensures InterruptFrame(InterruptedMem(m, c, number), c.esp - INTERRUPT_FRAME, c, number)
    ensures forall a {:trigger Rd(InterruptedMem(m, c, number), a)} ::
              !(c.esp - INTERRUPT_FRAME <= a < c.esp) ==> Rd(InterruptedMem(m, c, number), a) == Rd(m, a)
  {
  }

  lemma ContextIsEntry(s: State, number: int, handler: int, s': State)
    requires |s.ring| > 0 && s'.mem == InterruptedMem(s.mem, s.cpu, number)
    requires s'.cpu == s.cpu.(esp := s.cpu.esp - INTERRUPT_FRAME, eip := handler, eflags := s.cpu.eflags - 512)
    requires s'.ring == s.ring && s'.stacks == s.stacks && s'.open == s.open
    requires s'.pending == s.pending[s.ring[0] := Frames(s, s.ring[0]) + [Interrupted(s.cpu, number)]]
    ensures Does(s, Interrupt(number, handler), s')
  {
    PushedContext(s.mem, s.cpu, number);
  }

  ghost function PoppedRegisters(m: Ram, c: Cpu): Cpu {
    var a := c.esp;
    Cpu(Rd(m, a + 24), Rd(m, a + 20), Rd(m, a + 16), Rd(m, a + 12), Rd(m, a + 8), Rd(m, a + 4), Rd(m, a),
        a + 28, c.eip, c.eflags)
  }

  /** n zero words below address a. */
  ghost function ZerosBelow(m: Ram, a: int, n: nat): Ram {
    if n == 0 then m else ZerosBelow(m, a, n - 1)[a - 4 * n := 0]
  }

  ghost function Forged(m: Ram, top: int, entry: int): Ram {
    ZerosBelow(m[top - 4 := entry], top - 4, 7)
  }

  lemma {:induction false} ZerosBelowAt(m: Ram, a: int, n: nat, x: int)
    ensures Rd(ZerosBelow(m, a, n), x) ==
            if a - 4 * n <= x < a && (a - x) % 4 == 0 then 0 else Rd(m, x)
  {
    if n > 0 {
      ZerosBelowAt(m, a, n - 1, x);
    }
  }

  lemma ForgedFrame(m: Ram, top: int, entry: int)
    ensures SwitchFrame(Forged(m, top, entry), top - 32, Cpu(0, 0, 0, 0, 0, 0, 0, 0, 0, 0), entry)
    ensures forall a {:trigger Rd(Forged(m, top, entry), a)} ::
              !(top - 32 <= a < top) ==> Rd(Forged(m, top, entry), a) == Rd(m, a)
  {
    forall x
      ensures Rd(Forged(m, top, entry), x) ==
              if top - 32 <= x < top - 4 && (top - 4 - x) % 4 == 0 then 0 else Rd(m[top - 4 := entry], x)
    {
      ZerosBelowAt(m[top - 4 := entry], top - 4, 7, x);
    }
  }

  /** Lines 43-45 on memory. */
  ghost function LinkedMem(m: Ram, t: int, thread: int, esp: int): Ram {
    m[thread := esp][thread + 4 := Rd(m[thread := esp], t + 4)][t + 4 := thread]
  }

  lemma LinkWords(m: Ram, t: int, thread: int, esp: int)
    requires Apart(thread, thread + 8, t, t + 8)
    ensures var m' := LinkedMem(m, t, thread, esp);
            && Rd(m', thread) == esp && Rd(m', thread + 4) == Rd(m, t + 4) && Rd(m', t + 4) == thread
            && forall a {:trigger Rd(m', a)} :: !(thread <= a < thread + 8) && a != t + 4 ==> Rd(m', a) == Rd(m, a)
  {
  }

  lemma FrameKept(m: Ram, m': Ram, a: int, c: Cpu, ret: int)
    requires SwitchFrame(m, a, c, ret) && SameWords(m, m', a, a + 32)
    ensures SwitchFrame(m', a, c, ret)
  {
  }

  /** What the new thread's memory holds once it is forged and linked. */
  lemma NewThreadMem(m: Ram, t: int, thread: int, top: int, entry: int)
    requires Apart(thread, thread + 8, t, t + 8)
    requires Apart(thread, thread + 8, top - 32, top) && Apart(t, t + 8, top - 32, top)
    ensures var m' := LinkedMem(Forged(m, top, entry), t, thread, top - 32);
            && SwitchFrame(m', top - 32, Cpu(0, 0, 0, 0, 0, 0, 0, 0, 0, 0), entry)
            && Rd(m', thread) == top - 32 && Rd(m', thread + 4) == Rd(m, t + 4) && Rd(m', t + 4) == thread
            && forall a {:trigger Rd(m', a)} ::
                 !(top - 32 <= a < top) && !(thread <= a < thread + 8) && a != t + 4 ==> Rd(m', a) == Rd(m, a)
  {
    var forged := Forged(m, top, entry);
    ForgedFrame(m, top, entry);
    LinkWords(forged, t, thread, top - 32);
    FrameKept(forged, LinkedMem(forged, t, thread, top - 32), top - 32, Cpu(0, 0, 0, 0, 0, 0, 0, 0, 0, 0), entry);
  }

  /** The forged frame and the three link words make up the creation step. */
  lemma NewThreadStep(s: State, thread: int, base: int, entry: int, s': State)
    requires Inv(s) && thread !in s.stacks && Disjoint(s.stacks[thread := Stack(base, base + 4096)])
    requires s'.cpu == s.cpu && s'.pending == s.pending && s'.open == s.open
    requires s'.ring == [s.ring[0], thread] + s.ring[1..] && s'.stacks == s.stacks[thread := Stack(base, base + 4096)]
    requires s'.mem == LinkedMem(Forged(s.mem, base + 4096, entry), s.ring[0], thread, base + 4064)
    ensures Does(s, Create(thread, base, entry), s')
  {
    NewBlockApart(s, thread, base, s.ring[0]);
    NewThreadMem(s.mem, s.ring[0], thread, base + 4096, entry);
  }
}
