/** terminal.c: the keyboard's line editor on the screen of utils.c. */
module Terminal {
  import opened CStrings
  import opened TextPage
  import opened Editor
  import opened Screen

  class LineEditor {
    const screen: Terminal80x25
    const inputBuffer: array<Byte>
    var bufferLen: nat
    var shellActive: bool
    var enterPressed: bool
    var matrixActive: bool

    ghost var owed: set<int>
    ghost var start: nat

    ghost predicate Valid()
      reads this, inputBuffer, screen, screen.fb
    {
      && inputBuffer.Length == BUFFER_MAX && inputBuffer != screen.fb
      && bufferLen < BUFFER_MAX && 0 !in inputBuffer[..bufferLen]
      && screen.Valid()
    }

    ghost function Now(): Session
      requires inputBuffer.Length == BUFFER_MAX && bufferLen < BUFFER_MAX
      reads this, inputBuffer, screen
    {
      Session(inputBuffer[..bufferLen], shellActive, enterPressed, matrixActive,
              screen.page, screen.activeFg, screen.activeBg, owed, start)
    }

    /** The lock screen's terminal: nothing typed, the shell not yet active. */
    constructor (device: Terminal80x25)
      requires device.Valid()
      ensures screen == device && fresh(inputBuffer)
      ensures Valid()
      ensures Now() == Settle(Session([], false, false, false, device.page, device.activeFg, device.activeBg, {}, 0))
    {
      screen, bufferLen := device, 0;
      shellActive, enterPressed, matrixActive := false, false, false;
      owed, start := {}, device.page.pos;
      inputBuffer := new Byte[BUFFER_MAX](i => 0);
    }

    /** init_terminal, with the two lines of greeting as parameters. */
    method InitTerminal(welcome: seq<Byte>, hint: seq<Byte>)
      requires Valid() && 0 in welcome && 0 in hint
      modifies this`bufferLen, this`start, inputBuffer, screen, screen.fb
      ensures Valid() && Now() == Greeted(old(Now()), welcome, hint) && bufferLen == 0
      ensures ShowsAll(old(LookOf(Now())), [Clear, Show(welcome), Show(hint), Show(PROMPT)], LookOf(Now()))
    {
      GreetingShows(Now(), welcome, hint);
      ClearScreen();
      Printf(welcome);
      Printf(hint);
      Printf(PROMPT);
      bufferLen := 0;
      inputBuffer[0] := 0;
      start := screen.page.pos;
    }

    method Putchar(c: Byte)
      requires Valid()
      modifies screen, screen.fb
      ensures Valid() && Now() == Put1(old(Now()), c)
    {
      screen.Putchar(FrameBuffer, c);
    }

    method Printf(str: seq<Byte>)
      requires Valid() && 0 in str
      modifies screen, screen.fb
      ensures Valid() && Now() == Print(old(Now()), str)
    {
      screen.Printf(str);
    }

    method ClearScreen()
      requires Valid()
      modifies screen, screen.fb
      ensures Valid() && Now() == Wiped(old(Now()))
    {
      screen.ClearScreen();
    }

    method Prompt()
      requires Valid()
      modifies screen, screen.fb
      ensures Valid() && Now() == Prompted(old(Now()))
    {
      if shellActive {
        Printf(PROMPT);
      }
    }

    /** A command's statements, given the line it was started with as a C string. */
    method RunCommand(cmd: seq<Byte>, effects: seq<Effect>)
      requires Valid() && forall e :: e in effects ==> IsEffect(e)
      modifies this`matrixActive, screen, screen.fb
      ensures Valid() && Now() == ApplyAll(old(Now()), effects)
    {
      var i := 0;
      while i < |effects|
        invariant 0 <= i <= |effects|
        invariant Valid() && Now() == ApplyAll(old(Now()), effects[..i])
      {
        ApplyNext(old(Now()), effects, i);
        i := i + 1;
      }
      assert effects[..i] == effects;
    }

    method ApplyNext(ghost before: Session, effects: seq<Effect>, i: nat)
      requires Valid() && i < |effects| && IsEffect(effects[i])
      requires before.page.Valid() && Now() == ApplyAll(before, effects[..i])
      modifies this`matrixActive, screen, screen.fb
      ensures Valid() && Now() == ApplyAll(before, effects[..i + 1])
    {
      assert effects[..i + 1][..i] == effects[..i];
      match effects[i]
      case Show(str) => Printf(str);
      case Clear => ClearScreen();
      case StartMatrix => matrixActive := true;
    }

    /** Line 62: what strcmp and the commands then see of the buffer is the line. */
    method EndLine()
      requires Valid()
      modifies inputBuffer
      ensures Valid() && Now() == old(Now()) && CString(inputBuffer[..]) == Now().line
    {
      inputBuffer[bufferLen] := 0;
      CStringIs(inputBuffer[..], bufferLen);
    }

    /** Lines 61-72. */
    method EnterLine(effects: seq<Effect>)
      requires Valid() && forall e :: e in effects ==> IsEffect(e)
      modifies this, inputBuffer, screen, screen.fb
      ensures Valid() && Now() == Entered(old(Now()), effects) && bufferLen == 0
      ensures old(shellActive && !matrixActive) ==>
                ShowsAll(old(LookOf(Now())), EnterOutput(old(Now().line), effects), LookOf(Now()))
    {
      ghost var before := Now();
      Putchar(NEWLINE);
      EndLine();
      if bufferLen > 0 {
        RunCommand(inputBuffer[..], effects);
      }
      Prompt();
      bufferLen := 0;
      inputBuffer[0] := 0;
      if before.shell && !before.matrix {
        EnterShows(before, effects);
      }
    }

    /** Lines 80-84. */
    method TakeBack()
      requires Valid() && bufferLen > 0 && screen.cursorPos > 0
      modifies this`bufferLen, inputBuffer, screen, screen.fb
      ensures Valid()
      ensures Now() == old(Now()).(line := old(Now().line)[..old(bufferLen) - 1], page := Erased(old(Now().page)))
      ensures SteppedBack(old(Now().page), Now().page)
    {
      bufferLen := bufferLen - 1;
      inputBuffer[bufferLen] := 0;
      screen.EraseLast();
    }

    /** Lines 93-94. */
    method TypeIn(ascii: Byte)
      requires Valid() && ascii != 0 && bufferLen < BUFFER_MAX - 1
      modifies this`bufferLen, inputBuffer, screen, screen.fb
      ensures Valid() && Now() == Put1(old(Now()).(line := old(Now().line) + [ascii]), ascii)
      ensures StepShows(old(LookOf(Now())), Show([ascii, 0]), LookOf(Now()))
    {
      CharacterShows(Now(), ascii);
      inputBuffer[bufferLen] := ascii;
      bufferLen := bufferLen + 1;
      Putchar(ascii);
    }

    /** Lines 44-49. */
    method StopMatrix()
      requires Valid()
      modifies this`matrixActive, screen, screen.fb
      ensures Valid() && Now() == Halt(old(Now()))
      ensures ShowsAll(old(LookOf(Now())), HaltOutput(shellActive), LookOf(Now()))
    {
      HaltShows(Now());
      matrixActive := false;
      ClearScreen();
      Printf(HALTED);
      Prompt();
    }

    method HandleScan(scancode: nat, effects: seq<Effect>)
      requires Valid() && scancode < 256 && Safe(Now(), scancode)
      requires forall e :: e in effects ==> IsEffect(e)
      modifies this, inputBuffer, screen, screen.fb
      ensures Valid() && Now() == After(old(Now()), Key(scancode, effects))
      ensures Handled(old(Now()), scancode, effects, Now())
    {
      KeyHandled(Now(), scancode, effects);
      ActOn(scancode, effects);
      start := if bufferLen == 0 then screen.page.pos else start;
    }

    /** Lines 38-96. */
    method ActOn(scancode: nat, effects: seq<Effect>)
      requires Valid() && scancode < 256 && Safe(Now(), scancode)
      requires forall e :: e in effects ==> IsEffect(e)
      modifies this, inputBuffer, screen, screen.fb
      ensures Valid() && Now() == AfterKey(old(Now()), scancode, effects)
    {
      if scancode >= 0x80 {
        return;
      }
      if matrixActive {
        if KeyMap(scancode) == LETTER_Q {
          StopMatrix();
        }
        return;
      }
      if scancode == ENTER {
        if !shellActive {
          enterPressed, shellActive := true, true;
        } else {
          EnterLine(effects);
        }
        return;
      }
      if scancode == BACKSPACE {
        if bufferLen > 0 && shellActive {
          TakeBack();
        }
        return;
      }
      if shellActive {
        var ascii := KeyMap(scancode);
        if ascii != 0 && bufferLen < BUFFER_MAX - 1 {
          TypeIn(ascii);
        }
      }
    }

    /** program.c line 13 or 30, in a task. */
    method TestFlag(ghost task: int) returns (on: bool)
      requires Valid()
      modifies this`owed
      ensures Valid() && Now() == After(old(Now()), Test(task)) && on == matrixActive
    {
      on := matrixActive;
      owed := if on then owed + {task} else owed;
    }

    /** program.c line 15 or 32, in a task whose last test saw the flag on, whatever it is now. */
    method TaskOutput(ghost task: int, str: seq<Byte>)
      requires Valid() && 0 in str && task in owed
      modifies this`owed, this`start, screen, screen.fb
      ensures Valid() && Now() == After(old(Now()), Output(task, str))
      ensures StepShows(old(LookOf(Now())), Show(str), LookOf(Now()))
      ensures bufferLen == old(bufferLen) && inputBuffer[..] == old(inputBuffer[..])
    {
      PrintShows(Now(), str);
      owed := owed - {task};
      Printf(str);
      start := if bufferLen == 0 then screen.page.pos else start;
    }
  }
}
