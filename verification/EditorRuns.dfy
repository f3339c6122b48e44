/** Whole runs of the line editor: keys, commands and the tasks' turns in any order. */
module EditorRuns {
  import opened CStrings
  import opened TextPage
  import opened Editor

  ghost predicate Leads(s: Session, e: Event, t: Session) {
    s.page.Valid() && SafeEvent(s, e) && t == After(s, e)
  }

  ghost predicate IsRun(states: seq<Session>, events: seq<Event>) {
    && |states| == |events| + 1
    && (forall i :: 0 <= i < |events| ==> IsEvent(events[i]))
    && forall i :: 0 <= i < |events| ==> Leads(states[i], events[i], states[i + 1])
  }

  /** The event moves the line and the cursor apart. */
  ghost predicate Disturbs(s: Session, e: Event) {
    AcceptsTab(s, e) || HitsLine(s, e)
  }

  /** None of the first n events is an accepted Tab or a task's output on a line being typed. */
  ghost predicate Undisturbed(states: seq<Session>, events: seq<Event>, n: int) {
    0 <= n <= |events| < |states| && forall i :: 0 <= i < n ==> !Disturbs(states[i], events[i])
  }

  lemma {:induction false} UndisturbedAgrees(states: seq<Session>, events: seq<Event>, n: nat)
    requires IsRun(states, events) && Undisturbed(states, events, n)
    requires Sound(states[0]) && Agrees(states[0])
    ensures Sound(states[n]) && Agrees(states[n])
  {
    if n > 0 {
      UndisturbedAgrees(states, events, n - 1);
      assert Leads(states[n - 1], events[n - 1], states[n]);
      EventAgrees(states[n - 1], events[n - 1]);
    }
  }

  /** Line and screen agree after every event of a run exactly when no Tab was accepted in it and no task that saw the
      flag on before q printed on a line typed after it. */
  lemma RunAgrees(states: seq<Session>, events: seq<Event>)
    requires IsRun(states, events) && Sound(states[0]) && Agrees(states[0])
    ensures (forall n :: 0 <= n < |states| ==> Agrees(states[n])) <==> Undisturbed(states, events, |events|)
  {
    if Undisturbed(states, events, |events|) {
      forall n | 0 <= n < |states|
        ensures Agrees(states[n])
      {
        UndisturbedAgrees(states, events, n);
      }
    } else {
      var i := FirstDisturbed(states, events, |events|);
      UndisturbedAgrees(states, events, i);
      assert Leads(states[i], events[i], states[i + 1]);
      EventAgrees(states[i], events[i]);
      assert !Agrees(states[i + 1]);
    }
  }

  lemma {:induction false} FirstDisturbed(states: seq<Session>, events: seq<Event>, n: nat) returns (i: nat)
    requires n <= |events| < |states| && !Undisturbed(states, events, n)
    ensures i < n && Disturbs(states[i], events[i]) && Undisturbed(states, events, i)
  {
    if Undisturbed(states, events, n - 1) {
      i := n - 1;
    } else {
      i := FirstDisturbed(states, events, n - 1);
    }
  }

  /** At the prompt with nothing typed, while the task still owes an output. */
  ghost predicate OwedAtPrompt(s: Session, task: int) {
    Sound(s) && Agrees(s) && s.shell && !s.matrix && s.line == [] && task in s.owed
  }

  lemma QuitsOwing(s: Session, t: Session, u: Session, task: int)
    requires Sound(s) && Agrees(s) && s.matrix && s.shell
    requires Leads(s, Test(task), t) && Leads(t, Key(0x10, []), u)
    ensures OwedAtPrompt(u, task)
  {
    EventAgrees(s, Test(task));
    EventAgrees(t, Key(0x10, []));
    assert KeyMap(0x10) == LETTER_Q;
    HaltLeaves(t);
  }

  lemma TypesOwing(s: Session, t: Session, task: int)
    requires OwedAtPrompt(s, task) && Leads(s, Key(0x1E, []), t)
    ensures Sound(t) && Agrees(t) && t.line != [] && task in t.owed
  {
    assert KeyMap(0x1E) == 0x61;
    EventAgrees(s, Key(0x1E, []));
  }

  /** A run in which nobody types a Tab and line and screen part all the same: a task sees the flag on, q clears it, a
      letter is typed, and the task prints. */
  lemma LateOutputParts(states: seq<Session>, events: seq<Event>, task: int, str: seq<Byte>)
    requires IsRun(states, events) && Sound(states[0]) && Agrees(states[0]) && states[0].matrix && states[0].shell
    requires events == [Test(task), Key(0x10, []), Key(0x1E, []), Output(task, str)]
    requires Glyphs(CString(str), states[3].fg, states[3].bg) != []
    ensures !Agrees(states[4])
  {
    assert Leads(states[0], events[0], states[1]) && Leads(states[1], events[1], states[2]);
    assert Leads(states[2], events[2], states[3]) && Leads(states[3], events[3], states[4]);
    assert IsEvent(events[3]);
    QuitsOwing(states[0], states[1], states[2], task);
    TypesOwing(states[2], states[3], task);
    EventAgrees(states[3], Output(task, str));
  }

  /** After q the flag is off, the shell as active as before, and the tasks that owe an output still do. */
  lemma HaltLeaves(s: Session)
    ensures !Halt(s).matrix && Halt(s).shell == s.shell && Halt(s).line == s.line && Halt(s).owed == s.owed
  {
  }

  ghost predicate NoTab(states: seq<Session>, events: seq<Event>, n: int) {
    0 <= n <= |events| < |states| && forall i :: 0 <= i < n ==> !AcceptsTab(states[i], events[i])
  }

  lemma {:induction false} NoTabRoom(states: seq<Session>, events: seq<Event>, n: nat)
    requires IsRun(states, events) && NoTab(states, events, n) && Sound(states[0]) && Roomy(states[0])
    ensures Sound(states[n]) && Roomy(states[n])
  {
    if n > 0 {
      NoTabRoom(states, events, n - 1);
      assert Leads(states[n - 1], events[n - 1], states[n]);
      EventRoom(states[n - 1], events[n - 1]);
    }
  }

  /** A run without an accepted Tab can always go on, whatever the tasks print: Backspace never takes the cursor below
      zero. */
  lemma NeverStuck(states: seq<Session>, events: seq<Event>, e: Event)
    requires IsRun(states, events) && NoTab(states, events, |events|) && IsEvent(e)
    requires Sound(states[0]) && Roomy(states[0])
    ensures SafeEvent(states[|events|], e)
  {
    NoTabRoom(states, events, |events|);
    EventRoom(states[|events|], e);
  }

  // ----- What is in the line

  /** The key types a byte into the line. */
  ghost predicate IsCharacter(e: Event) {
    e.Key? && e.scancode < 0x80 && e.scancode != ENTER && e.scancode != BACKSPACE && KeyMap(e.scancode) != 0
  }

  /** The characters that no later Backspace takes back, read from the last key to the first. */
  ghost function Survivors(events: seq<Event>, pending: nat): seq<Byte>
    decreases |events|
  {
    if events == [] then []
    else
      var front, e := events[..|events| - 1], events[|events| - 1];
      if e.Key? && e.scancode == BACKSPACE then Survivors(front, pending + 1)
      else if !IsCharacter(e) then Survivors(front, pending)
      else if pending > 0 then Survivors(front, pending - 1)
      else Survivors(front, 0) + [KeyMap(e.scancode)]
  }

  /** Taking back more characters takes them off the end. */
  lemma {:induction false} SurvivorsDrop(events: seq<Event>, pending: nat)
    ensures var all := Survivors(events, 0);
            Survivors(events, pending) == all[..if pending <= |all| then |all| - pending else 0]
    decreases |events|
  {
    if events != [] {
      var front, e := events[..|events| - 1], events[|events| - 1];
      SurvivorsDrop(front, 1);
      SurvivorsDrop(front, pending + 1);
      SurvivorsDrop(front, pending);
      if pending > 0 {
        SurvivorsDrop(front, pending - 1);
      }
    }
  }

  /** A character key finds the line full. */
  ghost predicate Refused(s: Session, e: Event) {
    IsCharacter(e) && |s.line| == BUFFER_MAX - 1
  }

  /** None of the first n events is refused. */
  ghost predicate NoneRefused(states: seq<Session>, events: seq<Event>, n: int) {
    0 <= n <= |events| < |states| && forall i :: 0 <= i < n ==> !Refused(states[i], events[i])
  }

  ghost predicate IsEnter(e: Event) {
    e.Key? && e.scancode == ENTER
  }

  ghost predicate AtPrompt(s: Session) {
    s.shell && !s.matrix && |s.line| < BUFFER_MAX
  }

  lemma SurvivorsStep(events: seq<Event>, e: Event)
    ensures var all := Survivors(events, 0);
            Survivors(events + [e], 0) ==
            if e.Key? && e.scancode == BACKSPACE then (if all == [] then [] else all[..|all| - 1])
            else if IsCharacter(e) then all + [KeyMap(e.scancode)]
            else all
  {
    assert (events + [e])[..|events|] == events;
    SurvivorsDrop(events, 1);
  }

  /** One more event at the prompt: the line is still what survives, unless a character is refused. */
  lemma LineStep(s: Session, t: Session, events: seq<Event>, e: Event)
    requires AtPrompt(s) && Leads(s, e, t) && !IsEnter(e) && s.line == Survivors(events, 0)
    ensures AtPrompt(t)
    ensures t.line == Survivors(events + [e], 0) <==> !Refused(s, e)
  {
    SurvivorsStep(events, e);
  }

  lemma {:induction false} LineSurvives(states: seq<Session>, events: seq<Event>, n: nat)
    requires IsRun(states, events) && NoneRefused(states, events, n)
    requires forall i :: 0 <= i < |events| ==> !IsEnter(events[i])
    requires AtPrompt(states[0]) && states[0].line == []
    ensures AtPrompt(states[n]) && states[n].line == Survivors(events[..n], 0)
  {
    if n > 0 {
      LineSurvives(states, events, n - 1);
      LineSurvivesNext(states, events, n - 1);
    }
  }

  lemma LineSurvivesNext(states: seq<Session>, events: seq<Event>, n: nat)
    requires IsRun(states, events) && n < |events| && !IsEnter(events[n])
    requires AtPrompt(states[n]) && states[n].line == Survivors(events[..n], 0)
    ensures AtPrompt(states[n + 1])
    ensures states[n + 1].line == Survivors(events[..n + 1], 0) <==> !Refused(states[n], events[n])
  {
    assert Leads(states[n], events[n], states[n + 1]);
    LineStep(states[n], states[n + 1], events[..n], events[n]);
    assert events[..n + 1] == events[..n] + [events[n]];
  }

  /** Between two Enters the buffer holds after every key what survives of the keystrokes, exactly when the
      full buffer refused none of them. */
  lemma LineIsWhatSurvives(states: seq<Session>, events: seq<Event>)
    requires IsRun(states, events) && AtPrompt(states[0]) && states[0].line == []
    requires forall i :: 0 <= i < |events| ==> !IsEnter(events[i])
    ensures (forall n :: 0 <= n <= |events| ==> states[n].line == Survivors(events[..n], 0)) <==>
            NoneRefused(states, events, |events|)
  {
    if NoneRefused(states, events, |events|) {
      forall n | 0 <= n <= |events|
        ensures states[n].line == Survivors(events[..n], 0)
      {
        LineSurvives(states, events, n);
      }
    } else {
      var i := FirstRefusal(states, events, |events|);
      LineSurvives(states, events, i);
      LineSurvivesNext(states, events, i);
    }
  }

  lemma {:induction false} FirstRefusal(states: seq<Session>, events: seq<Event>, n: nat) returns (i: nat)
    requires n <= |events| < |states| && !NoneRefused(states, events, n)
    ensures i < n && Refused(states[i], events[i]) && NoneRefused(states, events, i)
  {
    if NoneRefused(states, events, n - 1) {
      i := n - 1;
    } else {
      i := FirstRefusal(states, events, n - 1);
    }
  }

  // ----- A character and the Backspace that takes it back

  /** The cursor is where it was, on a blank cell, and everything before it is as it was. */
  ghost predicate Regained(was: Page, now: Page) {
    && now.pos == was.pos <= |was.cells| && now.pos < |now.cells|
    && now.cells[..was.pos] == was.cells[..was.pos]
    && now.cells[now.pos] == Cell(SPACE, Attr(DEFAULT_FG, DEFAULT_BG))
  }

  lemma PutThenErase(p: Page, c: Byte, fg: Byte, bg: Byte)
    requires p.Valid() && c != NEWLINE
    ensures Regained(p, Erased(Put(p, FrameBuffer, c, fg, bg)))
  {
    var e := Extended(p, fg, bg);
    assert e.cells[..p.pos] == p.cells[..p.pos];
  }

  /** A typed character other than a Tab and a Backspace leave the line, the cursor and all before it as they were. */
  lemma TypeThenErase(s: Session, t: Session, u: Session, scancode: nat)
    requires AtPrompt(s) && IsCharacter(Key(scancode, [])) && scancode != TAB_KEY && |s.line| < BUFFER_MAX - 1
    requires Leads(s, Key(scancode, []), t) && Leads(t, Key(BACKSPACE, []), u)
    ensures u.line == s.line && Regained(s.page, u.page)
  {
    OnlyTabIsCode(scancode);
    var c := KeyMap(scancode);
    assert t == Put1(s.(line := s.line + [c]), c);
    assert t.line[..|t.line| - 1] == s.line;
    PutThenErase(s.page, c, s.fg, s.bg);
  }

  /** A Tab and a Backspace leave the line as it was and blank the cell left of the cursor, which moves there. */
  lemma TabThenErase(s: Session, t: Session, u: Session)
    requires AtPrompt(s) && |s.line| < BUFFER_MAX - 1
    requires Leads(s, Key(TAB_KEY, []), t) && Leads(t, Key(BACKSPACE, []), u)
    ensures u.line == s.line && u.page == Erased(s.page)
  {
    assert KeyMap(TAB_KEY) == TAB;
    assert t.line[..|t.line| - 1] == s.line;
  }

  /** The Tabs accepted among the first n events. */
  ghost function Tabs(states: seq<Session>, events: seq<Event>, n: nat): nat
    requires n <= |events| < |states|
  {
    if n == 0 then 0 else Tabs(states, events, n - 1) + if AcceptsTab(states[n - 1], events[n - 1]) then 1 else 0
  }

  /** How far an event's output moves the cursor. */
  ghost function Moved(s: Session, e: Event): nat {
    if e.Output? && e.task in s.owed then
      var end := Position(s.page.pos, Glyphs(CString(e.str), s.fg, s.bg));
      if end < s.page.pos then 0 else end - s.page.pos
    else 0
  }

  /** How far the tasks' output among the first n events has moved the cursor. */
  ghost function MovedBy(states: seq<Session>, events: seq<Event>, n: nat): nat
    requires n <= |events| < |states|
  {
    if n == 0 then 0 else MovedBy(states, events, n - 1) + Moved(states[n - 1], events[n - 1])
  }

  /** What an event at the prompt does to the cursor and the line together. */
  lemma PositionStep(s: Session, e: Event, t: Session)
    requires AtPrompt(s) && Leads(s, e, t) && !IsEnter(e) && IsEvent(e)
    ensures AtPrompt(t)
    ensures t.page.pos - |t.line| == s.page.pos - |s.line| + Moved(s, e) - if AcceptsTab(s, e) then 1 else 0
  {
    if IsCharacter(e) {
      OnlyTabIsCode(e.scancode);
    }
    if e.Output? {
      TextKeepsPast(s.page, Glyphs(CString(e.str), s.fg, s.bg));
    }
    assert KeyMap(TAB_KEY) == TAB;
  }

  /** Since the prompt the cursor has moved on by the length of the line and by what tasks printed late, less one for
      every Tab accepted. */
  lemma {:induction false} CursorPosition(states: seq<Session>, events: seq<Event>, n: nat)
    requires IsRun(states, events) && n <= |events| && AtPrompt(states[0]) && states[0].line == []
    requires forall i :: 0 <= i < |events| ==> !IsEnter(events[i])
    ensures AtPrompt(states[n])
    ensures states[n].page.pos
            == states[0].page.pos + |states[n].line| + MovedBy(states, events, n) - Tabs(states, events, n)
  {
    if n > 0 {
      CursorPosition(states, events, n - 1);
      assert Leads(states[n - 1], events[n - 1], states[n]);
      PositionStep(states[n - 1], events[n - 1], states[n]);
    }
  }

  /** The next Backspace takes the cursor below zero exactly when something is left in the line and the Tabs accepted
      since the prompt have used up all of the screen before it, with what tasks have printed on it since. */
  lemma BackspaceUnderflows(states: seq<Session>, events: seq<Event>)
    requires IsRun(states, events) && AtPrompt(states[0]) && states[0].line == [] && states[0].page.Valid()
    requires forall i :: 0 <= i < |events| ==> !IsEnter(events[i])
    ensures var s, n := states[|events|], |events|;
            !Safe(s, BACKSPACE) <==>
            && s.line != []
            && Tabs(states, events, n) == states[0].page.pos + |s.line| + MovedBy(states, events, n) - s.page.Top()
  {
    CursorPosition(states, events, |events|);
    PagesValid(states, events, |events|);
  }

  lemma {:induction false} PagesValid(states: seq<Session>, events: seq<Event>, n: nat)
    requires IsRun(states, events) && n <= |events| && states[0].page.Valid()
    ensures states[n].page.Valid()
  {
    if n > 0 {
      assert Leads(states[n - 1], events[n - 1], states[n]);
    }
  }

  /** One Tab per cell left of the cursor and one more, then one Backspace per cell: the cursor is at the start
      of the screen, the line still holds a byte, and the next Backspace would take the cursor below zero. */
  lemma TabsTakeCursorBelowZero(states: seq<Session>, events: seq<Event>, room: nat)
    requires IsRun(states, events) && |events| == 2 * room + 1 && room < BUFFER_MAX - 1
    requires forall i :: 0 <= i < |events| ==> events[i] == Key(if i <= room then TAB_KEY else BACKSPACE, [])
    requires AtPrompt(states[0]) && states[0].line == [] && states[0].page.pos - states[0].page.Top() == room
    ensures !Safe(states[|events|], BACKSPACE)
  {
    TabsThenErases(states, events, room, |events|);
  }

  lemma {:induction false} TabsThenErases(states: seq<Session>, events: seq<Event>, room: nat, n: nat)
    requires IsRun(states, events) && n <= |events| == 2 * room + 1 && room < BUFFER_MAX - 1
    requires forall i :: 0 <= i < |events| ==> events[i] == Key(if i <= room then TAB_KEY else BACKSPACE, [])
    requires AtPrompt(states[0]) && states[0].line == [] && states[0].page.pos - states[0].page.Top() == room
    ensures AtPrompt(states[n])
    ensures |states[n].line| == if n <= room + 1 then n else 2 * room + 2 - n
    ensures states[n].page.pos - states[n].page.Top() == if n <= room + 1 then room else 2 * room + 1 - n
  {
    if n > 0 {
      TabsThenErases(states, events, room, n - 1);
      assert Leads(states[n - 1], events[n - 1], states[n]);
      assert KeyMap(TAB_KEY) == TAB;
    }
  }
}
