/** The two tasks of program.c, the main thread of kmain.c and the flag between them: who yields, and when. */
module Tasks {
  import Alloc
  import opened CStrings
  import Editor
  import opened Machine
  import opened Terminal
  import opened TextPage
  import opened ThreadRuns
  import opened ThreadStorage
  import opened Threads

  /** Where a task's endless loop is: before its test of matrix_active, after it with what it saw, or in thread_yield
      with current_thread advanced and the stack not yet changed. */
  datatype Loop = Testing | SawOn | SawOff | Yielding

  /** The machine, the flag, and the loop of every thread but main, which only halts between interrupts. */
  datatype System = System(machine: State, matrix: bool, loops: map<int, Loop>)

  datatype Act =
    | Step(e: Event)
    | Test
    | Print
    | TaskAdvance
    | TaskSwitch(ret: int)
    | TimerYield(ret: int)
    | Key(on: bool)

  ghost predicate SystemInv(k: System, main: int) {
    && Inv(k.machine) && main in k.machine.stacks
    && LoopsOk(k.loops, k.machine.stacks.Keys, k.machine.ring[0], k.machine.open, main)
  }

  /** Every thread but main has a loop, and only the running one can be inside thread_yield. */
  ghost predicate LoopsOk(loops: map<int, Loop>, threads: set<int>, first: int, open: bool, main: int) {
    && loops.Keys == threads - {main}
    && (open ==> first in loops && loops[first] == Yielding)
    && (forall t :: t in loops && loops[t] == Yielding ==> open && t == first)
  }

  /** The innermost unfinished interrupt of thread t has the given number. */
  ghost predicate Handling(s: State, t: int, number: int) {
    Frames(s, t) != [] && Frames(s, t)[Depth(s, t) - 1].number == number
  }

  /** A task acts on its own, outside any handler, from the given point of its loop. */
  ghost predicate AtLoop(k: System, t: int, at: Loop) {
    t in k.loops && k.loops[t] == at && Frames(k.machine, t) == []
  }

  /** What the machine does in an act. */
  function EventOf(a: Act): Event {
    match a
    case Step(e) => e
    case Test => Work
    case Print => Work
    case TaskAdvance => Advance
    case TaskSwitch(ret) => Switch(ret)
    case TimerYield(ret) => Yield(ret)
    case Key(_) => Work
  }

  /** Who may do what: a task tests the flag, then prints or yields by what it saw, in two parts; the timer's handler
      yields if the flag is on, with interrupts off since its test; the keyboard's handler sets the flag; nobody else
      yields. */
  ghost predicate Allowed(k: System, a: Act, k': System)
    requires k.machine.ring != []
  {
    var t := k.machine.ring[0];
    match a
    case Step(e) =>
      && !IsSwitch(e) && !e.Advance? && k'.matrix == k.matrix
      && k'.loops == if e.Create? then k.loops[e.thread := Testing] else k.loops
    case Test =>
      && AtLoop(k, t, Testing) && k'.matrix == k.matrix
      && k'.loops == k.loops[t := if k.matrix then SawOn else SawOff]
    case Print => AtLoop(k, t, SawOn) && k'.matrix == k.matrix && k'.loops == k.loops[t := Testing]
    case TaskAdvance => AtLoop(k, t, SawOff) && k'.matrix == k.matrix && k'.loops == k.loops[t := Yielding]
    case TaskSwitch(_) => AtLoop(k, t, Yielding) && k'.matrix == k.matrix && k'.loops == k.loops[t := Testing]
    case TimerYield(_) => k.matrix && Handling(k.machine, t, TIMER) && k'.matrix == k.matrix && k'.loops == k.loops
    case Key(on) => Handling(k.machine, t, KEYBOARD) && k'.matrix == on && k'.loops == k.loops
  }

  ghost predicate Acts(k: System, a: Act, k': System)
    requires Inv(k.machine)
  {
    StepBy(k.machine, EventOf(a), k'.machine) && Allowed(k, a, k')
  }

  /** The timer's handler switches in the middle of a task's thread_yield. */
  ghost predicate TearsYield(k: System, a: Act) {
    Tears(k.machine, EventOf(a))
  }

  /** What an event does to the running thread, the window of thread_yield and the set of threads. */
  ghost predicate Moved(s: State, e: Event, s': State) {
    && s.ring != [] && s'.ring != [] && s.ring[0] in s.stacks && (!IsSwitch(e) ==> s'.ring[0] == s.ring[0])
    && s'.open == (e.Advance? || (s.open && !IsSwitch(e))) && (e.Yield? ==> !s.open)
    && s'.stacks.Keys == s.stacks.Keys + (if e.Create? then {e.thread} else {})
    && (e.Create? ==> e.thread !in s.stacks)
  }

  lemma StepMoves(s: State, e: Event, s': State)
    requires Inv(s) && NextBy(s, e, s')
    ensures Moved(s, e, s') && Inv(s')
  {
    StepKeeps(s, e, s');
    RingStep(s, e, s');
  }

  lemma LoopsKeep(k: System, a: Act, k': System, main: int)
    requires Moved(k.machine, EventOf(a), k'.machine) && Allowed(k, a, k') && main in k.machine.stacks
    requires LoopsOk(k.loops, k.machine.stacks.Keys, k.machine.ring[0], k.machine.open, main)
    ensures LoopsOk(k'.loops, k'.machine.stacks.Keys, k'.machine.ring[0], k'.machine.open, main)
  {
  }

  lemma ActKeeps(k: System, a: Act, k': System, main: int)
    requires SystemInv(k, main) && Acts(k, a, k') && !TearsYield(k, a)
    ensures SystemInv(k', main)
  {
    StepMoves(k.machine, EventOf(a), k'.machine);
    LoopsKeep(k, a, k', main);
  }

  // ----- Runs

  ghost predicate SystemRun(ks: seq<System>, acts: seq<Act>, main: int) {
    && |ks| == |acts| + 1
    && SystemInv(ks[0], main)
    && forall i :: 0 <= i < |acts| ==> ActAt(ks, acts, i)
  }

  ghost predicate ActAt(ks: seq<System>, acts: seq<Act>, i: int)
    requires 0 <= i < |acts| < |ks|
  {
    Inv(ks[i].machine) ==> Acts(ks[i], acts[i], ks[i + 1])
  }

  /** None of the first n acts tears a thread_yield. */
  ghost predicate Whole(ks: seq<System>, acts: seq<Act>, n: int) {
    0 <= n <= |acts| < |ks| && forall i :: 0 <= i < n ==> !TearsYield(ks[i], acts[i])
  }

  lemma {:induction false} SystemRunKeepsInv(ks: seq<System>, acts: seq<Act>, main: int, i: nat)
    requires SystemRun(ks, acts, main) && Whole(ks, acts, i)
    ensures SystemInv(ks[i], main)
  {
    if i > 0 {
      SystemRunKeepsInv(ks, acts, main, i - 1);
      assert ActAt(ks, acts, i - 1);
      ActKeeps(ks[i - 1], acts[i - 1], ks[i], main);
    }
  }

  lemma SystemStep(ks: seq<System>, acts: seq<Act>, main: int, i: nat)
    requires SystemRun(ks, acts, main) && Whole(ks, acts, i) && i < |acts|
    ensures SystemInv(ks[i], main) && Acts(ks[i], acts[i], ks[i + 1])
  {
    SystemRunKeepsInv(ks, acts, main, i);
    assert ActAt(ks, acts, i);
  }

  ghost function StatesOf(ks: seq<System>): seq<State> {
    seq(|ks|, i requires 0 <= i < |ks| => ks[i].machine)
  }

  ghost function EventsOf(acts: seq<Act>): seq<Event> {
    seq(|acts|, i requires 0 <= i < |acts| => EventOf(acts[i]))
  }

  /** The machine's side of a run is a run of the kernel; where no act tears a thread_yield it is one to which all the
      theorems on runs apply, and otherwise the machine's invariant is lost on the way. */
  lemma MachineRun(ks: seq<System>, acts: seq<Act>, main: int)
    requires SystemRun(ks, acts, main)
    ensures KernelRun(StatesOf(ks), EventsOf(acts))
    ensures (forall i :: 0 <= i < |ks| ==> Inv(StatesOf(ks)[i])) <==> Whole(ks, acts, |acts|)
    ensures Whole(ks, acts, |acts|) ==> Run(StatesOf(ks), EventsOf(acts))
  {
    var states, events := StatesOf(ks), EventsOf(acts);
    forall i | 0 <= i < |events|
      ensures KernelStepAt(states, events, i)
    {
      assert ActAt(ks, acts, i);
    }
    RunExactly(states, events);
    assert Untorn(states, events, |events|) <==> Whole(ks, acts, |acts|) by {
      forall i | 0 <= i < |acts|
        ensures Tears(states[i], events[i]) <==> TearsYield(ks[i], acts[i])
      {
      }
    }
  }

  // ----- When a thread_yield is torn

  /** A task has seen the flag off and has not given the processor away yet. */
  ghost predicate Leaving(k: System) {
    exists t :: t in k.loops && (k.loops[t] == SawOff || k.loops[t] == Yielding)
  }

  /** No key turns matrix mode on between a task's test that saw it off and the change of stack. */
  ghost predicate KeysWait(ks: seq<System>, acts: seq<Act>, n: int) {
    0 <= n <= |acts| < |ks| && forall i :: 0 <= i < n && acts[i] == Key(true) ==> !Leaving(ks[i])
  }

  lemma LeavingOff(k: System, a: Act, k': System, main: int)
    requires SystemInv(k, main) && Acts(k, a, k') && !TearsYield(k, a)
    requires k.matrix ==> !Leaving(k)
    requires a == Key(true) ==> !Leaving(k)
    ensures k'.matrix ==> !Leaving(k')
  {
    if k'.matrix {
      forall t | t in k'.loops
        ensures k'.loops[t] != SawOff && k'.loops[t] != Yielding
      {
        assert t in k.loops ==> k.matrix || a == Key(true) ==> k.loops[t] != SawOff && k.loops[t] != Yielding;
      }
    }
  }

  /** Only with the flag on, and with a task in the middle of its thread_yield, can one be torn. */
  lemma OnlyWhenOn(k: System, a: Act, k': System, main: int)
    requires SystemInv(k, main) && Acts(k, a, k') && TearsYield(k, a)
    ensures a.TimerYield? && k.matrix && Leaving(k)
  {
    assert k.machine.ring[0] in k.loops;
  }

  lemma {:induction false} WaitingKeepsWhole(ks: seq<System>, acts: seq<Act>, main: int, n: nat)
    requires SystemRun(ks, acts, main) && KeysWait(ks, acts, n) && (ks[0].matrix ==> !Leaving(ks[0]))
    ensures Whole(ks, acts, n) && (ks[n].matrix ==> !Leaving(ks[n]))
  {
    if n > 0 {
      WaitingKeepsWhole(ks, acts, main, n - 1);
      SystemStep(ks, acts, main, n - 1);
      if TearsYield(ks[n - 1], acts[n - 1]) {
        OnlyWhenOn(ks[n - 1], acts[n - 1], ks[n], main);
      }
      LeavingOff(ks[n - 1], acts[n - 1], ks[n], main);
    }
  }

  /** So as long as no key turns matrix mode on while a task is on its way out, no thread_yield is torn and every
      switch and every preemption of the run is transparent. */
  lemma KeysThatWait(ks: seq<System>, acts: seq<Act>, main: int)
    requires SystemRun(ks, acts, main) && KeysWait(ks, acts, |acts|) && (ks[0].matrix ==> !Leaving(ks[0]))
    ensures Run(StatesOf(ks), EventsOf(acts))
  {
    WaitingKeepsWhole(ks, acts, main, |acts|);
    MachineRun(ks, acts, main);
  }

  /** No key turns matrix mode on, and no thread is created. */
  ghost predicate StaysOff(acts: seq<Act>) {
    forall i :: 0 <= i < |acts| ==> acts[i] != Key(true) && !EventOf(acts[i]).Create?
  }

  /** The steps of the tasks' own loops. */
  ghost function LoopSteps(acts: seq<Act>): nat {
    if acts == [] then 0
    else
      var a := acts[|acts| - 1];
      LoopSteps(acts[..|acts| - 1]) + if IsLoopStep(a) then 1 else 0
  }

  /** The loop steps a task still makes before it yields, while the flag is off. */
  ghost function Left(at: Loop): nat {
    match at
    case SawOn => 4
    case Testing => 3
    case SawOff => 2
    case Yielding => 1
  }

  /** The loop steps of all threads before main in the ring. */
  ghost function Ahead(ring: seq<int>, loops: map<int, Loop>, main: int): nat {
    if ring == [] || ring[0] == main then 0
    else (if ring[0] in loops then Left(loops[ring[0]]) else 0) + Ahead(ring[1..], loops, main)
  }

  /** What comes behind main, and where other threads' loops are, does not matter. */
  lemma {:induction false} AheadIgnores(ring: seq<int>, loops: map<int, Loop>, main: int, t: int, at: Loop,
                                        behind: seq<int>)
    requires t !in ring
    ensures Ahead(ring, loops[t := at], main) == Ahead(ring, loops, main)
    ensures main in ring ==> Ahead(ring + behind, loops[t := at], main) == Ahead(ring, loops, main)
  {
    if ring != [] && ring[0] != main {
      assert ring == [ring[0]] + ring[1..];
      assert (ring + behind)[1..] == ring[1..] + behind;
      AheadIgnores(ring[1..], loops, main, t, at, behind);
    }
  }

  lemma {:induction false} AheadBound(ring: seq<int>, loops: map<int, Loop>, main: int, d: nat)
    requires d < |ring| && ring[d] == main
    ensures Ahead(ring, loops, main) <= 4 * d
  {
    if d > 0 {
      AheadBound(ring[1..], loops, main, d - 1);
    }
  }

  lemma MainRuns(k: System, main: int)
    requires SystemInv(k, main)
    ensures k.machine.ring != []
    ensures Ahead(k.machine.ring, k.loops, main) == 0 <==> k.machine.ring[0] == main
    ensures k.machine.ring[0] != main ==> k.machine.ring[0] in k.loops
  {
    var ring := k.machine.ring;
    assert ring[0] in k.machine.stacks;
  }

  lemma OnceInRing(ring: seq<int>, stacks: map<int, Stack>, main: int)
    requires RingOf(ring, stacks) && main in stacks
    ensures ring[0] !in ring[1..] && (ring[0] != main ==> main in ring[1..])
  {
    assert main in ring;
    assert ring == [ring[0]] + ring[1..];
  }

  ghost predicate IsLoopStep(a: Act) {
    a.Test? || a.Print? || a.TaskAdvance? || a.TaskSwitch?
  }

  /** Where a loop step leaves the loop, while the flag is off. */
  function NextLoop(a: Act): Loop {
    match a
    case Test => SawOff
    case TaskAdvance => Yielding
    case _ => Testing
  }

  /** Where a loop is before its step. */
  function PriorLoop(a: Act): Loop {
    match a
    case Print => SawOn
    case TaskAdvance => SawOff
    case TaskSwitch(_) => Yielding
    case _ => Testing
  }

  /** With the flag off only a task outside any handler changes who runs or where a loop is. */
  lemma OnlyLoopsMove(k: System, a: Act, k': System, main: int)
    requires SystemInv(k, main) && Acts(k, a, k') && !k.matrix && a != Key(true) && !EventOf(a).Create?
    ensures !k'.matrix && k.machine.ring != [] && !TearsYield(k, a)
    ensures !IsLoopStep(a) ==> k'.machine.ring == k.machine.ring && k'.loops == k.loops
    ensures var t := k.machine.ring[0];
            IsLoopStep(a) ==>
              && t != main && t in k.loops && RingOf(k.machine.ring, k.machine.stacks)
              && k'.loops == k.loops[t := NextLoop(a)] && k.loops[t] == PriorLoop(a)
    ensures k'.machine.ring == if a.TaskSwitch? then k.machine.ring[1..] + [k.machine.ring[0]] else k.machine.ring
  {
    RingStep(k.machine, EventOf(a), k'.machine);
  }

  /** The first thread's loop step, seen from main. */
  lemma LoopStepCounts(ring: seq<int>, stacks: map<int, Stack>, loops: map<int, Loop>, main: int, at: Loop)
    requires RingOf(ring, stacks) && main in stacks && ring[0] != main && ring[0] in loops
    ensures var t := ring[0];
            && Ahead(ring, loops[t := at], main) == Ahead(ring, loops, main) - Left(loops[t]) + Left(at)
            && Ahead(ring[1..] + [t], loops[t := at], main) == Ahead(ring, loops, main) - Left(loops[t])
  {
    OnceInRing(ring, stacks, main);
    AheadIgnores(ring[1..], loops, main, ring[0], at, [ring[0]]);
  }

  /** Each loop step of a task brings main one step nearer; all other acts leave the distance as it is. */
  lemma OneNearer(k: System, a: Act, k': System, main: int)
    requires SystemInv(k, main) && Acts(k, a, k') && !k.matrix && a != Key(true) && !EventOf(a).Create?
    ensures Ahead(k'.machine.ring, k'.loops, main) + (if IsLoopStep(a) then 1 else 0)
            == Ahead(k.machine.ring, k.loops, main)
  {
    OnlyLoopsMove(k, a, k', main);
    if IsLoopStep(a) {
      LoopStepCounts(k.machine.ring, k.machine.stacks, k.loops, main, NextLoop(a));
    }
  }

  lemma SystemPrefix(ks: seq<System>, acts: seq<Act>, main: int)
    requires SystemRun(ks, acts, main) && acts != []
    ensures SystemRun(ks[..|acts|], acts[..|acts| - 1], main)
    ensures StaysOff(acts) ==> StaysOff(acts[..|acts| - 1])
  {
    var first, before := ks[..|acts|], acts[..|acts| - 1];
    forall i | 0 <= i < |before|
      ensures ActAt(first, before, i)
    {
      assert ActAt(ks, acts, i);
      assert first[i] == ks[i] && before[i] == acts[i] && first[i + 1] == ks[i + 1];
    }
  }

  /** With the flag off and staying off no thread_yield is torn. */
  lemma {:induction false} OffIsWhole(ks: seq<System>, acts: seq<Act>, main: int, n: nat)
    requires SystemRun(ks, acts, main) && StaysOff(acts) && !ks[0].matrix && n <= |acts|
    ensures Whole(ks, acts, n) && !ks[n].matrix
  {
    if n > 0 {
      OffIsWhole(ks, acts, main, n - 1);
      SystemStep(ks, acts, main, n - 1);
      OnlyLoopsMove(ks[n - 1], acts[n - 1], ks[n], main);
    }
  }

  lemma OffStep(ks: seq<System>, acts: seq<Act>, main: int, i: nat)
    requires SystemRun(ks, acts, main) && StaysOff(acts) && !ks[0].matrix && i < |acts|
    ensures SystemInv(ks[i], main) && Acts(ks[i], acts[i], ks[i + 1]) && !ks[i].matrix
  {
    OffIsWhole(ks, acts, main, i);
    SystemStep(ks, acts, main, i);
  }

  lemma {:induction false} DistanceCounts(ks: seq<System>, acts: seq<Act>, main: int)
    requires SystemRun(ks, acts, main) && StaysOff(acts) && !ks[0].matrix
    ensures Ahead(ks[|acts|].machine.ring, ks[|acts|].loops, main) + LoopSteps(acts)
            == Ahead(ks[0].machine.ring, ks[0].loops, main)
    decreases |acts|
  {
    if acts != [] {
      var last := |acts| - 1;
      SystemPrefix(ks, acts, main);
      DistanceCounts(ks[..|acts|], acts[..last], main);
      OffStep(ks, acts, main, last);
      OneNearer(ks[last], acts[last], ks[last + 1], main);
    }
  }

  ghost function TaskSwitches(acts: seq<Act>): nat {
    if acts == [] then 0 else TaskSwitches(acts[..|acts| - 1]) + if acts[|acts| - 1].TaskSwitch? then 1 else 0
  }

  lemma OnePlaceUp(k: System, a: Act, k': System, main: int, d: nat)
    requires SystemInv(k, main) && Acts(k, a, k') && !k.matrix && a != Key(true) && !EventOf(a).Create?
    requires d < |k.machine.ring| && k.machine.ring[d] == main
    ensures var up := if a.TaskSwitch? then 1 else 0;
            up <= d && d - up < |k'.machine.ring| && k'.machine.ring[d - up] == main
  {
    OnlyLoopsMove(k, a, k', main);
  }

  /** Every switch moves main one place up. */
  lemma {:induction false} SwitchesCount(ks: seq<System>, acts: seq<Act>, main: int, d: nat)
    requires SystemRun(ks, acts, main) && StaysOff(acts) && !ks[0].matrix
    requires d < |ks[0].machine.ring| && ks[0].machine.ring[d] == main
    ensures TaskSwitches(acts) <= d && d - TaskSwitches(acts) < |ks[|acts|].machine.ring|
    ensures ks[|acts|].machine.ring[d - TaskSwitches(acts)] == main
    decreases |acts|
  {
    if acts != [] {
      var last := |acts| - 1;
      SystemPrefix(ks, acts, main);
      SwitchesCount(ks[..|acts|], acts[..last], main, d);
      OffStep(ks, acts, main, last);
      OnePlaceUp(ks[last], acts[last], ks[last + 1], main, d - TaskSwitches(acts[..last]));
    }
  }

  /** Once matrix mode is off and nobody turns it on, the tasks' own loops bring control back: main, d places ahead
      in the ring, runs after exactly d switches, fewer than there are threads, and exactly so many loop steps, four
      a task at most; and then it is never away again, because no switch and no loop step is left. */
  lemma ControlReturnsToMain(ks: seq<System>, acts: seq<Act>, main: int, d: nat)
    requires SystemRun(ks, acts, main) && StaysOff(acts) && !ks[0].matrix
    requires d < |ks[0].machine.ring| && ks[0].machine.ring[d] == main
    ensures var steps, ring := Ahead(ks[0].machine.ring, ks[0].loops, main), ks[|acts|].machine.ring;
            && LoopSteps(acts) <= steps <= 4 * d && TaskSwitches(acts) <= d
            && ring != [] && (ring[0] == main <==> LoopSteps(acts) == steps)
            && (ring[0] == main <==> TaskSwitches(acts) == d)
    ensures !ks[|acts|].matrix
  {
    DistanceCounts(ks, acts, main);
    AheadBound(ks[0].machine.ring, ks[0].loops, main, d);
    SwitchesCount(ks, acts, main, d);
    OffIsWhole(ks, acts, main, |acts|);
    SystemRunKeepsInv(ks, acts, main, |acts|);
    MainRuns(ks[|acts|], main);
  }

  // ----- The C code

  /** Doing nothing is a step of the running thread. */
  lemma Idle(s: State)
    requires Inv(s) && !InWindow(s)
    ensures NextBy(s, Work, s)
  {
    FloorInStack(s, s.ring[0]);
  }

  lemma OnlyMain(ring: seq<int>, stacks: map<int, Stack>)
    requires RingOf(ring, stacks) && |ring| == 1
    ensures stacks.Keys == {ring[0]}
  {
    forall t | t in stacks
      ensures t == ring[0]
    {
      assert t in ring;
    }
  }

  /** A task that runs is not alone. */
  lemma TwoThreads(k: System, main: int)
    requires SystemInv(k, main) && k.machine.ring[0] in k.loops
    ensures |k.machine.ring| > 1
  {
    assert main in k.machine.ring && main != k.machine.ring[0];
  }

  /** The tasks whose last test saw the flag on. */
  ghost function Seeing(loops: map<int, Loop>): set<int> {
    set t | t in loops && loops[t] == SawOn
  }

  /** An act that leaves the machine alone. */
  lemma LoopActs(k: System, a: Act, k': System, main: int)
    requires SystemInv(k, main) && !InWindow(k.machine) && EventOf(a) == Work && k'.machine == k.machine
    requires Allowed(k, a, k')
    ensures Acts(k, a, k') && SystemInv(k', main)
  {
    Idle(k.machine);
    ActKeeps(k, a, k', main);
  }

  /** What create_thread has done: a new thread, or nothing without memory for it. */
  ghost predicate Made(k: System, thread: int, stack: int, entry: int, k': System)
    requires Inv(k.machine)
  {
    if thread != 0 && stack != 0 then Acts(k, Step(Create(thread, stack, entry)), k') else k' == k
  }

  lemma CreateActs(k: System, thread: int, stack: int, entry: int, k': System, main: int)
    requires SystemInv(k, main) && k'.matrix == k.matrix
    requires if thread != 0 && stack != 0
             then NextBy(k.machine, Create(thread, stack, entry), k'.machine) && k'.loops == k.loops[thread := Testing]
             else k' == k
    ensures Made(k, thread, stack, entry, k') && SystemInv(k', main) && Seeing(k'.loops) == Seeing(k.loops)
  {
    if thread != 0 && stack != 0 {
      ActKeeps(k, Step(Create(thread, stack, entry)), k', main);
      assert thread !in k.loops;
    }
  }

  /** The string shows on the page where the cursor was, byte by byte, in the colours in force. */
  ghost predicate TextShown(was: Editor.Look, text: seq<Byte>, now: Editor.Look) {
    Displayed(was.page, was.fg, was.bg, text, now.page, now.fg) && now.bg == was.bg
  }

  class Kernel {
    const p: Processor
    const terminal: LineEditor
    const main: int
    ghost var loops: map<int, Loop>

    ghost function Now(): System
      reads this, p, terminal
    {
      System(p.Now(), terminal.matrixActive, loops)
    }

    ghost predicate Valid()
      reads this, p, terminal, terminal.inputBuffer, terminal.screen, terminal.screen.fb
    {
      p.Valid() && terminal.Valid() && SystemInv(Now(), main) && terminal.owed == Seeing(loops)
    }

    constructor (p: Processor, terminal: LineEditor)
      requires p.Valid() && terminal.Valid() && |p.ring| == 1 && !p.open && terminal.owed == {}
      ensures Valid() && this.p == p && this.terminal == terminal && main == p.ring[0] && loops == map[]
    {
      this.p, this.terminal, main, loops := p, terminal, p.currentThread, map[];
      new;
      OnlyMain(p.ring, p.stacks);
    }

    // ----- program.c

    /** Lines 13 and 30. */
    method TestFlag() returns (on: bool)
      requires Valid() && AtLoop(Now(), p.ring[0], Testing)
      modifies this`loops, terminal`owed
      ensures Valid() && Acts(old(Now()), Test, Now()) && on == Now().matrix
      ensures terminal.Now() == Editor.After(old(terminal.Now()), Editor.Test(p.ring[0]))
    {
      on := terminal.TestFlag(p.ring[0]);
      loops := loops[p.ring[0] := if on then SawOn else SawOff];
      LoopActs(old(Now()), Test, Now(), main);
    }

    /** Lines 15 and 32, whatever the flag is by now. */
    method PrintText(str: seq<Byte>)
      requires Valid() && 0 in str && AtLoop(Now(), p.ring[0], SawOn)
      modifies this`loops, terminal`owed, terminal`start, terminal.screen, terminal.screen.fb
      ensures Valid() && Acts(old(Now()), Print, Now())
      ensures terminal.Now() == Editor.After(old(terminal.Now()), Editor.Output(p.ring[0], str))
      ensures TextShown(old(Editor.LookOf(terminal.Now())), CString(str), Editor.LookOf(terminal.Now()))
    {
      terminal.TaskOutput(p.ring[0], str);
      loops := loops[p.ring[0] := Testing];
      LoopActs(old(Now()), Print, Now(), main);
    }

    /** Lines 21 and 37, thread_yield up to its first write. */
    method AdvanceTask() returns (oldThread: int)
      requires Valid() && AtLoop(Now(), p.ring[0], SawOff)
      modifies this`loops, p
      ensures Valid() && Acts(old(Now()), TaskAdvance, Now()) && oldThread == p.ring[0]
    {
      ghost var before := Now();
      TwoThreads(before, main);
      loops := loops[p.ring[0] := Yielding];
      oldThread := p.AdvanceCurrent();
      ActKeeps(before, TaskAdvance, Now(), main);
    }

    /** The rest of thread_yield. */
    method SwitchTask(oldThread: int, ret: int)
      requires Valid() && AtLoop(Now(), p.ring[0], Yielding) && oldThread == p.ring[0]
      requires p.cpu.esp - 40 >= p.stacks[p.ring[0]].lo
      modifies this`loops, p
      ensures Valid() && Acts(old(Now()), TaskSwitch(ret), Now())
    {
      ghost var before := Now();
      loops := loops[p.ring[0] := Testing];
      p.SwitchStack(oldThread, ret);
      ActKeeps(before, TaskSwitch(ret), Now(), main);
    }

    // ----- kmain.c, interrupt.s and interrupt_handler.c

    /** create_thread, by whoever runs outside thread_yield. */
    method AddTask(h: Alloc.Heap, entry: int, ghost owners: map<int, Owned>)
      returns (thread: int, stack: int, ghost now: map<int, Owned>)
      requires Valid() && h.Valid() && h.PagesValid() && Hosts(h.live, main, p.stacks, owners) && !p.open
      modifies this`loops, p, h, h.pager, h.pager.frames.bitmap
      ensures Valid() && h.Valid() && Hosts(h.live, main, p.stacks, now)
      ensures Made(old(Now()), thread, stack, entry, Now())
    {
      thread, stack, now := MakeThread(h, entry, owners);
    }

    method MakeThread(h: Alloc.Heap, entry: int, ghost owners: map<int, Owned>)
      returns (thread: int, stack: int, ghost now: map<int, Owned>)
      requires h.Valid() && h.PagesValid() && Hosts(h.live, main, p.stacks, owners)
      requires p.Valid() && SystemInv(Now(), main) && !p.open
      modifies this`loops, p, h, h.pager, h.pager.frames.bitmap
      ensures p.Valid() && SystemInv(Now(), main) && Seeing(loops) == Seeing(old(loops))
      ensures h.Valid() && Hosts(h.live, main, p.stacks, now)
      ensures Made(old(Now()), thread, stack, entry, Now())
    {
      ghost var before := Now();
      thread, stack, now := CreateThread(h, p, entry, main, owners);
      AddLoop(before, thread, stack, entry);
    }

    ghost method AddLoop(before: System, thread: int, stack: int, entry: int)
      requires SystemInv(before, main) && Now() == before.(machine := p.Now())
      requires if thread != 0 && stack != 0 then NextBy(before.machine, Create(thread, stack, entry), p.Now())
               else p.Now() == before.machine
      modifies this`loops
      ensures SystemInv(Now(), main) && Seeing(loops) == Seeing(before.loops)
      ensures Made(before, thread, stack, entry, Now())
    {
      loops := if thread != 0 && stack != 0 then loops[thread := Testing] else loops;
      CreateActs(before, thread, stack, entry, Now(), main);
    }

    /** The timer or the keyboard interrupts whatever runs, thread_yield and handlers included. */
    method TakeInterrupt(number: int, handler: int)
      requires Valid() && (number == TIMER || number == KEYBOARD) && InterruptsOn(p.cpu.eflags)
      requires p.cpu.esp - INTERRUPT_FRAME >= p.stacks[p.ring[0]].lo
      modifies p
      ensures Valid() && Acts(old(Now()), Step(Interrupt(number, handler)), Now())
      ensures Handling(p.Now(), p.ring[0], number)
    {
      p.InterruptEntry(number, handler);
      ActKeeps(old(Now()), Step(Interrupt(number, handler)), Now(), main);
    }

    method ReturnFromInterrupt()
      requires Valid() && Frames(p.Now(), p.ring[0]) != [] && p.cpu.esp == Floor(p.Now(), p.ring[0])
      modifies p
      ensures Valid() && Acts(old(Now()), Step(Return), Now())
      ensures var frames := Frames(old(p.Now()), old(p.ring)[0]); p.cpu == frames[|frames| - 1].context
    {
      p.InterruptExit();
      ActKeeps(old(Now()), Step(Return), Now(), main);
    }

    /** interrupt_handler for the timer. It keeps the kernel sound exactly when it tears no thread_yield. */
    method HandleTimer(ret: int)
      requires Valid() && Handling(p.Now(), p.ring[0], TIMER)
      requires terminal.matrixActive ==> p.cpu.esp - 40 >= p.stacks[p.ring[0]].lo
      modifies p
      ensures if terminal.matrixActive then Does(old(p.Now()), Yield(ret), p.Now()) else Now() == old(Now())
      ensures terminal.matrixActive && |old(p.ring)| > 1 ==> Acts(old(Now()), TimerYield(ret), Now())
      ensures |old(p.ring)| > 1 ==>
                (Valid() <==> !(terminal.matrixActive && TearsYield(old(Now()), TimerYield(ret))))
    {
      if terminal.matrixActive {
        p.ThreadYield(ret);
        if |old(p.ring)| > 1 && !old(p.open) {
          ActKeeps(old(Now()), TimerYield(ret), Now(), main);
        }
      }
    }

    /** interrupt_handler for the keyboard: the scancode goes to the terminal, which may set or clear the flag. */
    method HandleKey(scancode: nat, effects: seq<Editor.Effect>)
      requires Valid() && Handling(p.Now(), p.ring[0], KEYBOARD)
      requires scancode < 256 && Editor.Safe(terminal.Now(), scancode)
      requires forall e :: e in effects ==> Editor.IsEffect(e)
      modifies terminal, terminal.inputBuffer, terminal.screen, terminal.screen.fb
      ensures Valid() && terminal.Now() == Editor.After(old(terminal.Now()), Editor.Key(scancode, effects))
      ensures Editor.Handled(old(terminal.Now()), scancode, effects, terminal.Now())
      ensures Acts(old(Now()), Key(terminal.matrixActive), Now())
    {
      Editor.KeyOwesNothing(terminal.Now(), scancode, effects);
      terminal.HandleScan(scancode, effects);
      LoopActs(old(Now()), Key(terminal.matrixActive), Now(), main);
    }
  }

  /** A command that turns matrix mode on, entered with one key. */
  ghost predicate StartsMatrix(s: Editor.Session, effects: seq<Editor.Effect>) {
    && s.shell && !s.matrix && s.line != [] && s.page.Valid()
    && (forall e :: e in effects ==> Editor.IsEffect(e)) && effects != [] && effects[|effects| - 1].StartMatrix?
  }

  lemma EnterStartsMatrix(s: Editor.Session, effects: seq<Editor.Effect>)
    requires StartsMatrix(s, effects)
    ensures Editor.Safe(s, Editor.ENTER) && Editor.After(s, Editor.Key(Editor.ENTER, effects)).matrix
  {
  }

  /** The key's interrupt and its return leave the interrupted thread where it was. */
  method EnterMatrix(k: Kernel, handler: int, effects: seq<Editor.Effect>)
    requires k.Valid() && InterruptsOn(k.p.cpu.eflags) && StartsMatrix(k.terminal.Now(), effects)
    requires k.p.cpu.esp - INTERRUPT_FRAME >= k.p.stacks[k.p.ring[0]].lo
    modifies k.p, k.terminal, k.terminal.inputBuffer, k.terminal.screen, k.terminal.screen.fb
    ensures k.Valid() && k.terminal.matrixActive
    ensures k.p.cpu == old(k.p.cpu) && k.p.ring == old(k.p.ring) && k.p.stacks == old(k.p.stacks)
    ensures k.p.open == old(k.p.open) && Frames(k.p.Now(), k.p.ring[0]) == old(Frames(k.p.Now(), k.p.ring[0]))
  {
    k.TakeInterrupt(KEYBOARD, handler);
    PressEnter(k, effects);
    k.ReturnFromInterrupt();
  }

  method PressEnter(k: Kernel, effects: seq<Editor.Effect>)
    requires k.Valid() && Handling(k.p.Now(), k.p.ring[0], KEYBOARD) && StartsMatrix(k.terminal.Now(), effects)
    modifies k.terminal, k.terminal.inputBuffer, k.terminal.screen, k.terminal.screen.fb
    ensures k.Valid() && k.terminal.matrixActive
  {
    EnterStartsMatrix(k.terminal.Now(), effects);
    k.HandleKey(Editor.ENTER, effects);
  }

  /** The losing run: a task that saw the flag off is between the two writes of thread_yield when Enter starts matrix
      mode, and the timer comes before the stack has changed. The next thread's saved esp then lies in the task's
      stack. */
  method TearTask(k: Kernel, handler: int, effects: seq<Editor.Effect>, ret: int)
    requires k.Valid() && AtLoop(k.Now(), k.p.ring[0], SawOff)
    requires InterruptsOn(k.p.cpu.eflags) && StartsMatrix(k.terminal.Now(), effects)
    requires k.p.cpu.esp - 88 >= k.p.stacks[k.p.ring[0]].lo
    modifies k, k.p, k.terminal, k.terminal.inputBuffer, k.terminal.screen, k.terminal.screen.fb
    ensures !k.Valid()
    ensures |old(k.p.ring)| > 1 && old(k.p.ring)[0] in old(k.p.stacks)
    ensures var t, n := old(k.p.ring)[0], old(k.p.ring)[1];
            Rd(k.p.mem, n) == old(k.p.cpu).esp - 88 && old(k.p.stacks)[t].lo <= Rd(k.p.mem, n) < old(k.p.stacks)[t].hi
  {
    var oldThread := k.AdvanceTask();
    EnterMatrix(k, handler, effects);
    TimerTears(k, handler, ret);
  }

  method TimerTears(k: Kernel, handler: int, ret: int)
    requires k.Valid() && InWindow(k.p.Now()) && k.terminal.matrixActive && InterruptsOn(k.p.cpu.eflags)
    requires k.p.cpu.esp - 88 >= k.p.stacks[k.p.ring[0]].lo
    modifies k.p
    ensures !k.Valid()
    ensures |old(k.p.ring)| > 1 && old(k.p.ring)[0] in old(k.p.stacks)
    ensures var t, n := old(k.p.ring)[0], old(k.p.ring)[1];
            Rd(k.p.mem, n) == old(k.p.cpu).esp - 88 && old(k.p.stacks)[t].lo <= Rd(k.p.mem, n) < old(k.p.stacks)[t].hi
  {
    k.TakeInterrupt(TIMER, handler);
    ghost var s := k.p.Now();
    k.HandleTimer(ret);
    TornYieldLoses(s, ret, k.p.Now());
  }
}
