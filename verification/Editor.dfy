/** What terminal.c's line editor does to a line and to the page that shows it. */
module Editor {
  import opened CStrings
  import opened TextPage

  const BUFFER_MAX := 256
  const ENTER := 0x1C
  const BACKSPACE := 0x0E
  const TAB_KEY := 0x0F
  const LETTER_Q: Byte := 0x71

  // kbd_map, row by row; the entries after these are 0.
  const ROW0: seq<Byte> := [0, 27, 0x31, 0x32, 0x33, 0x34, 0x35, 0x36, 0x37, 0x38, 0x39, 0x30, 0x2D, 0x3D, 8]
  const ROW1: seq<Byte> := [9, 0x71, 0x77, 0x65, 0x72, 0x74, 0x79, 0x75, 0x69, 0x6F, 0x70, 0x5B, 0x5D, 10]
  const ROW2: seq<Byte> := [0, 0x61, 0x73, 0x64, 0x66, 0x67, 0x68, 0x6A, 0x6B, 0x6C, 0x3B, 0x27, 0x60, 0, 0x5C]
  const ROW3: seq<Byte> := [0x7A, 0x78, 0x63, 0x76, 0x62, 0x6E, 0x6D, 0x2C, 0x2E, 0x2F, 0, 0x2A, 0, 0x20]

  function KeyMap(scancode: nat): Byte {
    if scancode < 15 then ROW0[scancode]
    else if scancode < 29 then ROW1[scancode - 15]
    else if scancode < 44 then ROW2[scancode - 29]
    else if scancode < 58 then ROW3[scancode - 44]
    else 0
  }

  lemma FirstRowPlain(i: nat)
    requires i < 14
    ensures !IsColour(ROW0[i]) && ROW0[i] != NEWLINE
  {
  }

  lemma SecondRowPlain(i: nat)
    requires 0 < i < 13
    ensures !IsColour(ROW1[i]) && ROW1[i] != NEWLINE
  {
  }

  lemma LowerRowsPlain(i: nat)
    ensures i < 15 ==> !IsColour(ROW2[i]) && ROW2[i] != NEWLINE
    ensures i < 14 ==> !IsColour(ROW3[i]) && ROW3[i] != NEWLINE
  {
  }

  /** Of the keys that reach the buffer only Tab types a byte that is not printed as it is. */
  lemma OnlyTabIsCode(scancode: nat)
    requires scancode != ENTER && scancode != BACKSPACE
    ensures IsColour(KeyMap(scancode)) <==> scancode == TAB_KEY
    ensures KeyMap(scancode) != NEWLINE
  {
    if scancode < 15 {
      FirstRowPlain(scancode);
    } else if scancode < 29 {
      if scancode > TAB_KEY {
        SecondRowPlain(scancode - 15);
      }
    } else {
      LowerRowsPlain(if scancode < 44 then scancode - 29 else scancode - 44);
    }
  }

  /** The prompt, "selith@SeliOS / # ". */
  const PROMPT: seq<Byte> := [
    0x73, 0x65, 0x6C, 0x69, 0x74, 0x68, 0x40, 0x53, 0x65, 0x6C, 0x69, 0x4F, 0x53, 0x20, 0x2F, 0x20, 0x23, 0x20, 0]

  /** "[ Concurrency Engine Halted ]" in cyan on a line of its own. */
  const HALTED: seq<Byte> := [
    10, 0x0B, 0x5B, 0x20, 0x43, 0x6F, 0x6E, 0x63, 0x75, 0x72, 0x72, 0x65, 0x6E, 0x63, 0x79, 0x20,
    0x45, 0x6E, 0x67, 0x69, 0x6E, 0x65, 0x20, 0x48, 0x61, 0x6C, 0x74, 0x65, 0x64, 0x20, 0x5D, 7, 10, 10, 0]

  /** What one statement of a command may do to the terminal. */
  datatype Effect = Show(str: seq<Byte>) | Clear | StartMatrix

  ghost predicate IsEffect(e: Effect) {
    e.Show? ==> 0 in e.str
  }

  /** The terminal at one moment. owed and start are bookkeeping: the tasks that have seen the flag on and have not
      printed since, and where the cursor was when the line was last empty. */
  datatype Session = Session(line: seq<Byte>, shell: bool, enter: bool, matrix: bool, page: Page, fg: Byte, bg: Byte,
                             owed: set<int>, start: nat)

  // ----- One event

  /** putchar on the screen. */
  ghost function Put1(s: Session, c: Byte): (r: Session)
    requires s.page.Valid()
    ensures r.page.Valid()
  {
    if IsColour(c) then s.(fg := c) else s.(page := Put(s.page, FrameBuffer, c, s.fg, s.bg))
  }

  /** printf on the screen. */
  ghost function Print(s: Session, str: seq<Byte>): (r: Session)
    requires s.page.Valid()
    ensures r.page.Valid()
  {
    s.(page := PutAll(s.page, Glyphs(CString(str), s.fg, s.bg)), fg := LastColour(CString(str), s.fg))
  }

  ghost function Wiped(s: Session): Session {
    s.(page := Cleared(), fg := DEFAULT_FG, bg := DEFAULT_BG)
  }

  ghost function Apply(s: Session, e: Effect): (r: Session)
    requires s.page.Valid()
    ensures r.page.Valid()
  {
    match e
    case Show(str) => Print(s, str)
    case Clear => Wiped(s)
    case StartMatrix => s.(matrix := true)
  }

  ghost function ApplyAll(s: Session, effects: seq<Effect>): (r: Session)
    requires s.page.Valid()
    ensures r.page.Valid()
    decreases |effects|
  {
    if effects == [] then s else Apply(ApplyAll(s, effects[..|effects| - 1]), effects[|effects| - 1])
  }

  ghost function Prompted(s: Session): (r: Session)
    requires s.page.Valid()
    ensures r.page.Valid()
  {
    if s.shell then Print(s, PROMPT) else s
  }

  /** Enter at the prompt: a new row, the command if the line is not empty, the prompt, an empty line. */
  ghost function Entered(s: Session, effects: seq<Effect>): (r: Session)
    requires s.page.Valid()
    ensures r.page.Valid()
  {
    var t := Put1(s, NEWLINE);
    var u := if s.line != [] then ApplyAll(t, effects) else t;
    Prompted(u).(line := [])
  }

  ghost function Halt(s: Session): (r: Session)
    ensures r.page.Valid()
  {
    Prompted(Print(Wiped(s.(matrix := false)), HALTED))
  }

  ghost function Greeted(s: Session, welcome: seq<Byte>, hint: seq<Byte>): (r: Session)
    ensures r.page.Valid()
  {
    Settle(Print(Print(Print(Wiped(s), welcome), hint), PROMPT).(line := []))
  }

  /** Whether the cursor can step back when it has to. */
  ghost predicate Safe(s: Session, scancode: nat) {
    scancode == BACKSPACE && s.shell && !s.matrix && s.line != [] ==> s.page.pos > s.page.Top()
  }

  ghost function AfterKey(s: Session, scancode: nat, effects: seq<Effect>): (r: Session)
    requires s.page.Valid() && Safe(s, scancode)
    ensures r.page.Valid()
  {
    if scancode >= 0x80 then s
    else if s.matrix then
      if KeyMap(scancode) == LETTER_Q then Halt(s) else s
    else if scancode == ENTER then
      if s.shell then Entered(s, effects) else s.(enter := true, shell := true)
    else if scancode == BACKSPACE then
      if s.line != [] && s.shell then s.(line := s.line[..|s.line| - 1], page := Erased(s.page)) else s
    else if s.shell && KeyMap(scancode) != 0 && |s.line| < BUFFER_MAX - 1 then
      Put1(s.(line := s.line + [KeyMap(scancode)]), KeyMap(scancode))
    else s
  }

  /** A key goes down or up; a task of program.c tests the flag; a task prints, if its last test saw the flag on. */
  datatype Event = Key(scancode: nat, effects: seq<Effect>) | Test(task: int) | Output(task: int, str: seq<Byte>)

  ghost predicate IsEvent(e: Event) {
    match e
    case Key(scancode, effects) => scancode < 256 && forall x :: x in effects ==> IsEffect(x)
    case Test(_) => true
    case Output(_, str) => 0 in str
  }

  ghost predicate SafeEvent(s: Session, e: Event) {
    e.Key? ==> Safe(s, e.scancode)
  }

  /** An empty line starts at the cursor. */
  ghost function Settle(s: Session): Session {
    if s.line == [] then s.(start := s.page.pos) else s
  }

  ghost function After(s: Session, e: Event): (r: Session)
    requires s.page.Valid() && SafeEvent(s, e)
    ensures r.page.Valid()
  {
    match e
    case Key(scancode, effects) => Settle(AfterKey(s, scancode, effects))
    case Test(task) => if s.matrix then s.(owed := s.owed + {task}) else s
    case Output(task, str) => if task in s.owed then Settle(Print(s.(owed := s.owed - {task}), str)) else s
  }

  // ----- What a key shows

  /** The page and the colours in force. */
  datatype Look = Look(page: Page, fg: Byte, bg: Byte)

  ghost function LookOf(s: Session): Look {
    Look(s.page, s.fg, s.bg)
  }

  /** 2000 spaces, light on blue, and the cursor on the first. */
  ghost predicate BlankScreen(p: Page) {
    p.pos == 0 && |p.cells| == 2000 && forall k :: 0 <= k < 2000 ==> p.cells[k] == Cell(0x20, 0x1F)
  }

  ghost predicate StepShows(a: Look, e: Effect, b: Look) {
    match e
    case Show(str) => Displayed(a.page, a.fg, a.bg, CString(str), b.page, b.fg) && b.bg == a.bg
    case Clear => BlankScreen(b.page) && b.fg == 15 && b.bg == 1
    case StartMatrix => b == a
  }

  /** Strings shown and screens cleared, one after the other. */
  ghost predicate ShowsAll(a: Look, effects: seq<Effect>, b: Look)
    decreases |effects|
  {
    if effects == [] then b == a
    else
      var front, last := effects[..|effects| - 1], effects[|effects| - 1];
      exists m :: ShowsAll(a, front, m) && StepShows(m, last, b)
  }

  lemma ShowsSnoc(a: Look, effects: seq<Effect>, m: Look, e: Effect, b: Look)
    requires ShowsAll(a, effects, m) && StepShows(m, e, b)
    ensures ShowsAll(a, effects + [e], b)
  {
    assert (effects + [e])[..|effects + [e]| - 1] == effects;
  }

  lemma PrintShows(s: Session, str: seq<Byte>)
    requires s.page.Valid()
    ensures StepShows(LookOf(s), Show(str), LookOf(Print(s, str)))
  {
    TextDisplayed(s.page, s.fg, s.bg, CString(str));
  }

  lemma WipeShows(s: Session)
    ensures StepShows(LookOf(s), Clear, LookOf(Wiped(s)))
  {
  }

  /** One character is a string of one character. */
  lemma CharacterShows(s: Session, c: Byte)
    requires s.page.Valid() && c != 0
    ensures StepShows(LookOf(s), Show([c, 0]), LookOf(Put1(s, c)))
  {
    var text := CString([c, 0]);
    assert text == [c] by { CStringIs([c, 0], 1); }
    assert [c][..0] == [];
    assert Glyphs([c], s.fg, s.bg) == if IsColour(c) then [] else [Glyph(c, s.fg, s.bg)];
    PrintShows(s, [c, 0]);
    if !IsColour(c) {
      PutAllSnoc(s.page, [], Glyph(c, s.fg, s.bg));
    }
  }

  lemma {:induction false} EffectsShow(a: Look, before: seq<Effect>, s: Session, effects: seq<Effect>)
    requires s.page.Valid() && ShowsAll(a, before, LookOf(s))
    ensures ShowsAll(a, before + effects, LookOf(ApplyAll(s, effects)))
    decreases |effects|
  {
    if effects == [] {
      assert before + [] == before;
    } else {
      var front, e := effects[..|effects| - 1], effects[|effects| - 1];
      var t := ApplyAll(s, front);
      EffectsShow(a, before, s, front);
      assert StepShows(LookOf(t), e, LookOf(Apply(t, e))) by {
        match e
        case Show(str) => PrintShows(t, str);
        case Clear => WipeShows(t);
        case StartMatrix =>
      }
      ShowsSnoc(a, before + front, LookOf(t), e, LookOf(Apply(t, e)));
      assert before + front + [e] == before + effects;
    }
  }

  lemma StepIsAll(a: Look, e: Effect, b: Look, b': Look)
    requires StepShows(a, e, b) && StepShows(a, e, b')
    ensures b == b'
  {
    match e
    case Show(str) => DisplayedIsAll(a.page, a.fg, a.bg, CString(str), b.page, b.fg, b'.page, b'.fg);
    case Clear =>
    case StartMatrix =>
  }

  /** That leaves nothing open either. */
  lemma {:induction false} ShowsIsAll(a: Look, effects: seq<Effect>, b: Look, b': Look)
    requires ShowsAll(a, effects, b) && ShowsAll(a, effects, b')
    ensures b == b'
    decreases |effects|
  {
    if effects != [] {
      var front, last := effects[..|effects| - 1], effects[|effects| - 1];
      var m :| ShowsAll(a, front, m) && StepShows(m, last, b);
      var m' :| ShowsAll(a, front, m') && StepShows(m', last, b');
      ShowsIsAll(a, front, m, m');
      StepIsAll(m, last, b, b');
    }
  }

  /** What Enter shows: a new row, the command's output if there is a command, the prompt. */
  ghost function EnterOutput(line: seq<Byte>, effects: seq<Effect>): seq<Effect> {
    [Show([10, 0])] + (if line != [] then effects else []) + [Show(PROMPT)]
  }

  /** What q shows in matrix mode: a cleared screen, the message, and the prompt if there is a shell. */
  ghost function HaltOutput(shell: bool): seq<Effect> {
    [Clear, Show(HALTED)] + if shell then [Show(PROMPT)] else []
  }

  /** What the commands do besides showing something. */
  ghost predicate Starts(line: seq<Byte>, effects: seq<Effect>) {
    line != [] && StartMatrix in effects
  }

  /** The cursor steps back onto a blank, and all other cells are as they were. */
  ghost predicate SteppedBack(p: Page, q: Page) {
    && q.pos == p.pos - 1 && |q.cells| == |p.cells| && q.pos < |q.cells|
    && forall k {:trigger q.cells[k]} :: 0 <= k < |q.cells| ==>
         q.cells[k] == if k == q.pos then Cell(0x20, 0x1F) else p.cells[k]
  }

  /** A key, branch by branch. */
  ghost predicate Handled(s: Session, scancode: nat, effects: seq<Effect>, t: Session) {
    if scancode >= 0x80 then t.(start := s.start) == s
    else if s.matrix then
      if KeyMap(scancode) == 0x71 then
        && t == s.(matrix := false, page := t.page, fg := t.fg, bg := t.bg, start := t.start)
        && ShowsAll(LookOf(s), HaltOutput(s.shell), LookOf(t))
      else t.(start := s.start) == s
    else if scancode == 0x1C then
      if !s.shell then t.(start := s.start) == s.(enter := true, shell := true)
      else
        && t == s.(line := [], matrix := Starts(s.line, effects), page := t.page, fg := t.fg, bg := t.bg,
                   start := t.start)
        && ShowsAll(LookOf(s), EnterOutput(s.line, effects), LookOf(t))
    else if scancode == 0x0E then
      if s.line == [] || !s.shell then t.(start := s.start) == s
      else
        && t == s.(line := s.line[..|s.line| - 1], page := t.page, start := t.start)
        && SteppedBack(s.page, t.page)
    else if s.shell && KeyMap(scancode) != 0 && |s.line| < 255 then
      && t == s.(line := s.line + [KeyMap(scancode)], page := t.page, fg := t.fg, start := t.start)
      && StepShows(LookOf(s), Show([KeyMap(scancode), 0]), LookOf(t))
    else t.(start := s.start) == s
  }

  lemma {:induction false} EffectsMove(s: Session, effects: seq<Effect>)
    requires s.page.Valid()
    ensures var t := ApplyAll(s, effects);
            t == s.(matrix := s.matrix || StartMatrix in effects, page := t.page, fg := t.fg, bg := t.bg)
    decreases |effects|
  {
    if effects != [] {
      var front, e := effects[..|effects| - 1], effects[|effects| - 1];
      EffectsMove(s, front);
      ApplyMoves(ApplyAll(s, front), e);
      InSnoc(effects);
    }
  }

  lemma ApplyMoves(s: Session, e: Effect)
    requires s.page.Valid()
    ensures var t := Apply(s, e);
            t == s.(matrix := s.matrix || e == StartMatrix, page := t.page, fg := t.fg, bg := t.bg)
  {
  }

  lemma InSnoc(effects: seq<Effect>)
    requires effects != []
    ensures StartMatrix in effects <==>
            StartMatrix in effects[..|effects| - 1] || effects[|effects| - 1] == StartMatrix
  {
    assert effects == effects[..|effects| - 1] + [effects[|effects| - 1]];
  }

  lemma FirstShows(s: Session, e: Effect, t: Session)
    requires StepShows(LookOf(s), e, LookOf(t))
    ensures ShowsAll(LookOf(s), [e], LookOf(t))
  {
    assert ShowsAll(LookOf(s), [], LookOf(s));
    ShowsSnoc(LookOf(s), [], LookOf(s), e, LookOf(t));
    assert [] + [e] == [e];
  }

  lemma RanShows(s: Session, ran: seq<Effect>)
    requires s.page.Valid()
    ensures var u := ApplyAll(Put1(s, NEWLINE), ran);
            ShowsAll(LookOf(s), [Show([10, 0])] + ran + [Show(PROMPT)], LookOf(Print(u, PROMPT)))
  {
    var t := Put1(s, NEWLINE);
    var u := ApplyAll(t, ran);
    CharacterShows(s, NEWLINE);
    FirstShows(s, Show([10, 0]), t);
    EffectsShow(LookOf(s), [Show([10, 0])], t, ran);
    PrintShows(u, PROMPT);
    ShowsSnoc(LookOf(s), [Show([10, 0])] + ran, LookOf(u), Show(PROMPT), LookOf(Print(u, PROMPT)));
  }

  lemma EnterMoves(s: Session, effects: seq<Effect>)
    requires s.page.Valid() && s.shell && !s.matrix
    ensures var t := Entered(s, effects);
            t == s.(line := [], matrix := Starts(s.line, effects), page := t.page, fg := t.fg, bg := t.bg)
  {
    EffectsMove(Put1(s, NEWLINE), effects);
  }

  lemma EnterShows(s: Session, effects: seq<Effect>)
    requires s.page.Valid() && s.shell && !s.matrix
    ensures ShowsAll(LookOf(s), EnterOutput(s.line, effects), LookOf(Entered(s, effects)))
  {
    var ran := if s.line != [] then effects else [];
    EffectsMove(Put1(s, NEWLINE), ran);
    RanShows(s, ran);
  }

  lemma HaltShows(s: Session)
    requires s.page.Valid()
    ensures ShowsAll(LookOf(s), HaltOutput(s.shell), LookOf(Halt(s)))
    ensures var t := Halt(s); t == s.(matrix := false, page := t.page, fg := t.fg, bg := t.bg)
  {
    var off := s.(matrix := false);
    var t := Print(Wiped(off), HALTED);
    WipeShows(off);
    PrintShows(Wiped(off), HALTED);
    FirstShows(s, Clear, Wiped(off));
    ShowsSnoc(LookOf(s), [Clear], LookOf(Wiped(off)), Show(HALTED), LookOf(t));
    assert [Clear] + [Show(HALTED)] == [Clear, Show(HALTED)];
    if s.shell {
      PrintShows(t, PROMPT);
      ShowsSnoc(LookOf(s), [Clear, Show(HALTED)], LookOf(t), Show(PROMPT), LookOf(Print(t, PROMPT)));
    } else {
      assert HaltOutput(s.shell) == [Clear, Show(HALTED)];
    }
  }

  lemma GreetingShows(s: Session, welcome: seq<Byte>, hint: seq<Byte>)
    ensures ShowsAll(LookOf(s), [Clear, Show(welcome), Show(hint), Show(PROMPT)], LookOf(Greeted(s, welcome, hint)))
  {
    var t := Wiped(s);
    WipeShows(s);
    FirstShows(s, Clear, t);
    var u := Print(t, welcome);
    NextShows(LookOf(s), [Clear], LookOf(t), Show(welcome), LookOf(u), [Clear, Show(welcome)]) by {
      PrintShows(t, welcome);
    }
    TwoShow(s, [Clear, Show(welcome)], u, hint, PROMPT, [Clear, Show(welcome), Show(hint), Show(PROMPT)]);
  }

  lemma NextShows(a: Look, before: seq<Effect>, m: Look, e: Effect, b: Look, all: seq<Effect>)
    requires ShowsAll(a, before, m) && StepShows(m, e, b) && all == before + [e]
    ensures ShowsAll(a, all, b)
  {
    ShowsSnoc(a, before, m, e, b);
  }

  lemma TwoShow(s: Session, before: seq<Effect>, t: Session, str: seq<Byte>, str': seq<Byte>, all: seq<Effect>)
    requires t.page.Valid() && ShowsAll(LookOf(s), before, LookOf(t)) && all == before + [Show(str), Show(str')]
    ensures ShowsAll(LookOf(s), all, LookOf(Print(Print(t, str), str')))
  {
    var u := Print(t, str);
    PrintShows(t, str);
    PrintShows(u, str');
    NextShows(LookOf(s), before, LookOf(t), Show(str), LookOf(u), before + [Show(str)]);
    NextShows(LookOf(s), before + [Show(str)], LookOf(u), Show(str'), LookOf(Print(u, str')), all);
  }

  /** What each key does, in every mode. */
  lemma KeyHandled(s: Session, scancode: nat, effects: seq<Effect>)
    requires s.page.Valid() && Safe(s, scancode)
    ensures Handled(s, scancode, effects, After(s, Key(scancode, effects)))
  {
    if scancode < 0x80 {
      if s.matrix {
        HaltShows(s);
      } else if scancode == ENTER && s.shell {
        EnterMoves(s, effects);
        EnterShows(s, effects);
      } else if scancode != BACKSPACE && KeyMap(scancode) != 0 {
        CharacterShows(s.(line := s.line + [KeyMap(scancode)]), KeyMap(scancode));
      }
    }
  }

  // ----- The line and the screen

  /** The cells left of the cursor, all still on the screen, are those where the line was typed, and show it. */
  ghost predicate Agrees(s: Session) {
    && s.page.pos == s.start + |s.line| && s.start >= s.page.Top() >= 0
    && s.page.pos <= |s.page.cells|
    && forall k :: 0 <= k < |s.line| ==> s.page.cells[s.start + k].ch == s.line[k]
  }

  /** What every event keeps, Tab or not. */
  ghost predicate Sound(s: Session) {
    && s.page.Valid() && NoCodes(s.page) && |s.line| < BUFFER_MAX && 0 !in s.line
    && (s.matrix || !s.shell ==> s.line == [])
  }

  ghost predicate AcceptsTab(s: Session, e: Event) {
    e.Key? && e.scancode == TAB_KEY && s.shell && !s.matrix && |s.line| < BUFFER_MAX - 1
  }

  /** A task prints on a line that is being typed: it saw the flag on before q was pressed. */
  ghost predicate HitsLine(s: Session, e: Event) {
    e.Output? && e.task in s.owed && s.line != [] && Glyphs(CString(e.str), s.fg, s.bg) != []
  }

  lemma PrintSound(s: Session, str: seq<Byte>)
    requires s.page.Valid() && NoCodes(s.page)
    ensures NoCodes(Print(s, str).page)
  {
    PrintedNoCodes(s.page, CString(str), s.fg, s.bg);
  }

  lemma {:induction false} EffectsSound(s: Session, effects: seq<Effect>)
    requires s.page.Valid() && NoCodes(s.page)
    ensures var r := ApplyAll(s, effects);
            NoCodes(r.page) && r.line == s.line && r.shell == s.shell && r.enter == s.enter
    decreases |effects|
  {
    if effects != [] {
      EffectsSound(s, effects[..|effects| - 1]);
      var t := ApplyAll(s, effects[..|effects| - 1]);
      match effects[|effects| - 1]
      case Show(str) => PrintSound(t, str);
      case Clear =>
      case StartMatrix =>
    }
  }

  lemma {:induction false} EffectsOweNothing(s: Session, effects: seq<Effect>)
    requires s.page.Valid()
    ensures ApplyAll(s, effects).owed == s.owed
    decreases |effects|
  {
    if effects != [] {
      EffectsOweNothing(s, effects[..|effects| - 1]);
    }
  }

  /** No key changes which tasks have seen the flag on. */
  lemma KeyOwesNothing(s: Session, scancode: nat, effects: seq<Effect>)
    requires s.page.Valid() && Safe(s, scancode)
    ensures After(s, Key(scancode, effects)).owed == s.owed
  {
    EffectsOweNothing(Put1(s, NEWLINE), effects);
  }

  lemma EnteredSound(s: Session, effects: seq<Effect>)
    requires Sound(s) && s.shell && !s.matrix
    ensures Sound(Entered(s, effects)) && Entered(s, effects).line == []
  {
    var t := Put1(s, NEWLINE);
    EffectsSound(t, effects);
    PrintSound(if s.line != [] then ApplyAll(t, effects) else t, PROMPT);
  }

  lemma HaltSound(s: Session)
    requires Sound(s) && s.matrix
    ensures Sound(Halt(s)) && Halt(s).line == []
  {
    var t := Wiped(s.(matrix := false));
    PrintSound(t, HALTED);
    PrintSound(Print(t, HALTED), PROMPT);
  }

  /** After init_terminal line and screen agree. */
  lemma GreetedAgrees(s: Session, welcome: seq<Byte>, hint: seq<Byte>)
    ensures Sound(Greeted(s, welcome, hint)) && Agrees(Greeted(s, welcome, hint))
  {
    PrintSound(Wiped(s), welcome);
    PrintSound(Print(Wiped(s), welcome), hint);
    PrintSound(Print(Print(Wiped(s), welcome), hint), PROMPT);
  }

  /** One typed character: the line grows, and the screen follows exactly when it is no colour code. */
  lemma TypedAgrees(s: Session, c: Byte)
    requires Sound(s) && Agrees(s) && s.shell && !s.matrix && |s.line| < BUFFER_MAX - 1 && c != 0 && c != NEWLINE
    ensures var r := Put1(s.(line := s.line + [c]), c);
            Sound(r) && (Agrees(r) <==> !IsColour(c))
  {
    var r := Put1(s.(line := s.line + [c]), c);
    if !IsColour(c) {
      forall k | 0 <= k < |r.line|
        ensures r.page.cells[r.start + k].ch == r.line[k]
      {
        if k < |s.line| {
          assert s.page.cells[s.start + k].ch == s.line[k];
        }
      }
    }
  }

  lemma ErasedAgrees(s: Session)
    requires Sound(s) && Agrees(s) && s.line != []
    ensures var r := s.(line := s.line[..|s.line| - 1], page := Erased(s.page));
            Sound(r) && Agrees(r)
  {
    var r := s.(line := s.line[..|s.line| - 1], page := Erased(s.page));
    forall k | 0 <= k < |r.line|
      ensures r.page.cells[r.start + k].ch == r.line[k]
    {
      assert s.page.cells[s.start + k].ch == s.line[k];
    }
  }

  /** An empty line agrees with any screen. */
  lemma SettledAgrees(s: Session)
    requires s.page.Valid() && s.line == []
    ensures Agrees(Settle(s))
  {
  }

  lemma OutputAgrees(s: Session, task: int, str: seq<Byte>)
    requires Sound(s) && Agrees(s) && task in s.owed && 0 in str
    ensures Sound(After(s, Output(task, str)))
    ensures Agrees(After(s, Output(task, str))) <==> !HitsLine(s, Output(task, str))
  {
    var gs := Glyphs(CString(str), s.fg, s.bg);
    PrintSound(s.(owed := s.owed - {task}), str);
    TextMoves(s.page, gs);
    if s.line == [] {
      SettledAgrees(Print(s.(owed := s.owed - {task}), str));
    }
  }

  lemma KeyAgrees(s: Session, scancode: nat, effects: seq<Effect>)
    requires Sound(s) && Agrees(s) && IsEvent(Key(scancode, effects))
    ensures Safe(s, scancode) && Sound(AfterKey(s, scancode, effects))
    ensures Agrees(Settle(AfterKey(s, scancode, effects))) <==> !AcceptsTab(s, Key(scancode, effects))
  {
    if scancode < 0x80 {
      if s.matrix {
        HaltSound(s);
      } else if scancode == ENTER {
        if s.shell {
          EnteredSound(s, effects);
        }
      } else if scancode == BACKSPACE {
        if s.line != [] {
          ErasedAgrees(s);
        }
      } else if s.shell && KeyMap(scancode) != 0 && |s.line| < BUFFER_MAX - 1 {
        OnlyTabIsCode(scancode);
        TypedAgrees(s, KeyMap(scancode));
      }
    }
  }

  /** Where line and screen agree, no key moves the cursor out of the screen, and every event keeps the agreement but
      an accepted Tab and a task's output on a line being typed. */
  lemma EventAgrees(s: Session, e: Event)
    requires Sound(s) && Agrees(s) && IsEvent(e)
    ensures SafeEvent(s, e) && Sound(After(s, e))
    ensures Agrees(After(s, e)) <==> !AcceptsTab(s, e) && !HitsLine(s, e)
  {
    match e
    case Key(scancode, effects) => KeyAgrees(s, scancode, effects);
    case Test(task) =>
    case Output(task, str) =>
      if task in s.owed {
        OutputAgrees(s, task, str);
      }
  }

  // ----- Room to step back

  /** The cursor is at least as far into the screen as the line is long. */
  ghost predicate Roomy(s: Session) {
    s.page.pos - |s.line| >= s.page.Top()
  }

  lemma {:induction false} PrintRoom(p: Page, gs: seq<Glyph>, room: nat)
    requires p.Valid() && room < BUFFER_MAX && p.pos - room >= p.Top()
    ensures var q := PutAll(p, gs); q.pos - room >= q.Top()
    decreases |gs|
  {
    if gs != [] {
      PrintRoom(p, gs[..|gs| - 1], room);
    }
  }

  /** Whatever is on the screen, only an accepted Tab takes room away. */
  lemma EventRoom(s: Session, e: Event)
    requires Sound(s) && Roomy(s) && IsEvent(e)
    ensures SafeEvent(s, e) && Sound(After(s, e))
    ensures !AcceptsTab(s, e) ==> Roomy(After(s, e))
  {
    match e
    case Key(scancode, effects) => KeyRoom(s, scancode, effects);
    case Test(task) =>
    case Output(task, str) =>
      if task in s.owed {
        PrintSound(s.(owed := s.owed - {task}), str);
        PrintRoom(s.page, Glyphs(CString(str), s.fg, s.bg), |s.line|);
      }
  }

  lemma KeyRoom(s: Session, scancode: nat, effects: seq<Effect>)
    requires Sound(s) && Roomy(s) && IsEvent(Key(scancode, effects))
    ensures Safe(s, scancode) && Sound(AfterKey(s, scancode, effects))
    ensures !AcceptsTab(s, Key(scancode, effects)) ==> Roomy(AfterKey(s, scancode, effects))
  {
    if scancode < 0x80 {
      if s.matrix {
        HaltSound(s);
      } else if scancode == ENTER {
        if s.shell {
          EnteredSound(s, effects);
        }
      } else if scancode != BACKSPACE && s.shell && KeyMap(scancode) != 0 && |s.line| < BUFFER_MAX - 1 {
        OnlyTabIsCode(scancode);
      }
    }
  }
}
