/** utils.c: the 80x25 frame buffer, scrolled in place. */
module Screen {
  import opened CStrings
  import opened TextPage

  /** The 4000 bytes show the page's last 2000 cells: character byte, then attribute byte. */
  ghost predicate Shows(fb: seq<Byte>, cells: seq<Cell>) {
    && |fb| == 2 * CELLS && |cells| >= CELLS
    && forall i :: 0 <= i < CELLS ==> CellAt(fb, i) == cells[|cells| - CELLS + i]
  }

  ghost function CellAt(fb: seq<Byte>, i: int): Cell
    requires |fb| == 2 * CELLS && 0 <= i < CELLS
  {
    Cell(fb[2 * i], fb[2 * i + 1])
  }

  class Terminal80x25 {
    const fb: array<Byte>
    var cursorPos: nat
    var activeFg: Byte
    var activeBg: Byte
    ghost var page: Page

    ghost predicate Valid()
      reads this, fb
    {
      && fb.Length == 2 * CELLS && page.Valid() && Shows(fb[..], page.cells)
      && cursorPos == page.pos - page.Top()
    }

    constructor ()
      ensures Valid() && fresh(fb) && page == Cleared() && activeFg == DEFAULT_FG && activeBg == DEFAULT_BG
    {
      fb := new Byte[2 * CELLS];
      cursorPos, activeFg, activeBg, page := 0, DEFAULT_FG, DEFAULT_BG, Cleared();
      new;
      ClearScreen();
    }

    method WriteCell(i: nat, c: Byte, fg: Byte, bg: Byte)
      requires fb.Length == 2 * CELLS && i < CELLS
      modifies fb
      ensures CellAt(fb[..], i) == Cell(c, Attr(fg, bg)) && fb[2 * i] == c
      ensures forall j :: 0 <= j < CELLS && j != i ==> CellAt(fb[..], j) == old(CellAt(fb[..], j))
    {
      fb[2 * i] := c;
      fb[2 * i + 1] := Attr(fg, bg);
    }

    /** Lines 28-29. */
    method CopyCell(i: nat)
      requires fb.Length == 2 * CELLS && i + 80 < CELLS
      modifies fb
      ensures CellAt(fb[..], i) == old(CellAt(fb[..], i + COLUMNS))
      ensures forall j :: 0 <= j < CELLS && j != i ==> CellAt(fb[..], j) == old(CellAt(fb[..], j))
    {
      fb[i * 2] := fb[(i + 80) * 2];
      fb[i * 2 + 1] := fb[(i + 80) * 2 + 1];
    }

    /** Lines 27-30: every row moves up by one, in place. */
    method ScrollUp()
      requires fb.Length == 2 * CELLS
      modifies fb
      ensures MovedUp(old(fb[..]), fb[..], 24 * COLUMNS)
    {
      var i := 0;
      while i < 24 * 80
        invariant 0 <= i <= 24 * 80
        invariant MovedUp(old(fb[..]), fb[..], i)
      {
        ghost var before := fb[..];
        CopyCell(i);
        MovedOneMore(old(fb[..]), before, fb[..], i);
        i := i + 1;
      }
    }

    /** Cells from to upto become blanks. */
    method Wipe(from: nat, upto: nat, fg: Byte, bg: Byte)
      requires fb.Length == 2 * CELLS && from <= upto <= CELLS
      modifies fb
      ensures forall j :: 0 <= j < CELLS ==>
                CellAt(fb[..], j) == if from <= j < upto then Cell(SPACE, Attr(fg, bg)) else old(CellAt(fb[..], j))
    {
      var i := from;
      while i < upto
        invariant from <= i <= upto
        invariant forall j :: 0 <= j < CELLS ==>
                    CellAt(fb[..], j) == if from <= j < i then Cell(SPACE, Attr(fg, bg)) else old(CellAt(fb[..], j))
      {
        WriteCell(i, SPACE, fg, bg);
        i := i + 1;
      }
    }

    method Scroll(fg: Byte, bg: Byte)
      requires Valid() && cursorPos >= CELLS
      modifies this`cursorPos, this`page, fb
      ensures Valid() && page == Extended(old(page), fg, bg) && cursorPos == 1920
      ensures RolledUp(old(fb[..]), fb[..], fg, bg)
    {
      ghost var before := fb[..];
      ScrollUp();
      ghost var moved := fb[..];
      Wipe(24 * 80, 25 * 80, fg, bg);
      cursorPos := 24 * 80;
      page := Extended(page, fg, bg);
      RowScrolled(before, moved, fb[..], old(page.cells), page.cells, fg, bg);
      RowBlank(before, moved, fb[..], fg, bg);
    }

    /** Line 43: the first column of the next row. */
    method StartRow()
      requires Valid() && cursorPos < CELLS
      modifies this`cursorPos, this`page
      ensures Valid() && page == old(page).(pos := (old(page.pos) / COLUMNS + 1) * COLUMNS)
      ensures cursorPos == (old(cursorPos) / 80 + 1) * 80
    {
      NextRow(page.pos, page.Top(), |page.cells|);
      cursorPos := (cursorPos / 80 + 1) * 80;
      page := page.(pos := (page.pos / COLUMNS + 1) * COLUMNS);
    }

    /** Lines 45-46: one cell under the cursor, which moves on. */
    method PutGlyph(c: Byte, fg: Byte, bg: Byte)
      requires Valid() && cursorPos < CELLS
      modifies this`cursorPos, this`page, fb
      ensures Valid()
      ensures page == Page(old(page.cells)[old(page.pos) := Cell(c, Attr(fg, bg))], old(page.pos) + 1)
      ensures cursorPos == old(cursorPos) + 1 && Looks(CellAt(fb[..], old(cursorPos)), c, fg, bg)
      ensures forall i :: 0 <= i < CELLS && i != old(cursorPos) ==> CellAt(fb[..], i) == old(CellAt(fb[..], i))
    {
      WriteCell(cursorPos, c, fg, bg);
      LooksLike(CellAt(fb[..], cursorPos), c, fg, bg);
      page := Page(page.cells[page.pos := Cell(c, Attr(fg, bg))], page.pos + 1);
      cursorPos := cursorPos + 1;
    }

    method PutcharColor(device: Device, c: Byte, fg: Byte, bg: Byte)
      requires Valid()
      modifies this`cursorPos, this`page, fb
      ensures Valid() && page == Put(old(page), device, c, fg, bg)
      ensures PutOnScreen(old(fb[..]), old(cursorPos), device, c, fg, bg, fb[..], cursorPos)
    {
      if cursorPos >= CELLS {
        Scroll(fg, bg);
      }
      if device == FrameBuffer {
        if c == NEWLINE {
          StartRow();
        } else {
          PutGlyph(c, fg, bg);
        }
      }
    }

    /** A byte from 1 to 15 other than newline sets the text colour instead of being printed. */
    method Putchar(device: Device, c: Byte)
      requires Valid()
      modifies this`cursorPos, this`page, this`activeFg, fb
      ensures Valid()
      ensures activeFg == if 1 <= c <= 15 && c != 10 then c else old(activeFg)
      ensures page == if 1 <= c <= 15 && c != 10 then old(page) else Put(old(page), device, c, old(activeFg), activeBg)
      ensures if 1 <= c <= 15 && c != 10 then fb[..] == old(fb[..]) && cursorPos == old(cursorPos)
              else PutOnScreen(old(fb[..]), old(cursorPos), device, c, old(activeFg), activeBg, fb[..], cursorPos)
    {
      if c >= 1 && c <= 15 && c != NEWLINE {
        activeFg := c;
        return;
      }
      PutcharColor(device, c, activeFg, activeBg);
    }

    /** One turn of the loop in printf. */
    method PrintNext(str: seq<Byte>, i: nat, ghost before: Page, ghost fg: Byte)
      requires Valid() && i < |str| && Printed(before, str[..i], fg, activeBg, page, activeFg)
      modifies this`cursorPos, this`page, this`activeFg, fb
      ensures Valid() && Printed(before, str[..i + 1], fg, activeBg, page, activeFg)
    {
      Putchar(FrameBuffer, str[i]);
      PrintStep(before, str, i, fg, activeBg);
    }

    /** The bytes before the first NUL, on the screen. */
    method Printf(str: seq<Byte>)
      requires Valid() && 0 in str
      modifies this`cursorPos, this`page, this`activeFg, fb
      ensures Valid() && Printed(old(page), CString(str), old(activeFg), activeBg, page, activeFg)
      ensures Displayed(old(page), old(activeFg), activeBg, CString(str), page, activeFg)
    {
      TextDisplayed(page, activeFg, activeBg, CString(str));
      ghost var end := Terminator(str);
      var i := 0;
      while str[i] != 0
        invariant 0 <= i <= end
        invariant Valid() && Printed(old(page), str[..i], old(activeFg), activeBg, page, activeFg)
        decreases end - i
      {
        assert i < end;
        PrintNext(str, i, old(page), old(activeFg));
        i := i + 1;
      }
    }

    /** Lines 85-89: what putchar does, written out again. */
    method PutOrSwitch(c: Byte)
      requires Valid()
      modifies this`cursorPos, this`page, this`activeFg, fb
      ensures Valid()
      ensures activeFg == if IsColour(c) then c else old(activeFg)
      ensures page == if IsColour(c) then old(page) else Put(old(page), FrameBuffer, c, old(activeFg), activeBg)
    {
      if c >= 1 && c <= 15 && c != NEWLINE {
        activeFg := c;
      } else {
        PutcharColor(FrameBuffer, c, activeFg, activeBg);
      }
    }

    /** One turn of the loop in printf_color. */
    method PrintColorNext(str: seq<Byte>, i: nat, ghost before: Page, ghost fg: Byte)
      requires Valid() && i < |str| && Printed(before, str[..i], fg, activeBg, page, activeFg)
      modifies this`cursorPos, this`page, this`activeFg, fb
      ensures Valid() && Printed(before, str[..i + 1], fg, activeBg, page, activeFg)
    {
      PutOrSwitch(str[i]);
      PrintStep(before, str, i, fg, activeBg);
    }

    /** Prints in given colours; inline codes act, and afterwards the active colours are as before. */
    method PrintfColor(str: seq<Byte>, fg: Byte, bg: Byte)
      requires Valid() && 0 in str
      modifies this`cursorPos, this`page, this`activeFg, this`activeBg, fb
      ensures Valid() && activeFg == old(activeFg) && activeBg == old(activeBg)
      ensures page == PutAll(old(page), Glyphs(CString(str), fg, bg))
      ensures Displayed(old(page), fg, bg, CString(str), page, LastColour(CString(str), fg))
    {
      TextDisplayed(page, fg, bg, CString(str));
      ghost var end := Terminator(str);
      var oldFg, oldBg := activeFg, activeBg;
      activeFg, activeBg := fg, bg;
      var i := 0;
      while str[i] != 0
        invariant 0 <= i <= end && activeBg == bg
        invariant Valid() && Printed(old(page), str[..i], fg, bg, page, activeFg)
        decreases end - i
      {
        assert i < end;
        PrintColorNext(str, i, old(page), fg);
        i := i + 1;
      }
      activeFg, activeBg := oldFg, oldBg;
    }

    /** terminal.c lines 82-83: the cursor steps back and the cell under it becomes a default blank. */
    method EraseLast()
      requires Valid() && cursorPos > 0
      modifies this`cursorPos, this`page, fb
      ensures Valid() && page == Erased(old(page))
      ensures cursorPos == old(cursorPos) - 1 && CellAt(fb[..], cursorPos) == Cell(0x20, 0x1F)
      ensures forall i :: 0 <= i < CELLS && i != cursorPos ==> CellAt(fb[..], i) == old(CellAt(fb[..], i))
    {
      ghost var before := fb[..];
      cursorPos := cursorPos - 1;
      WriteCell(cursorPos, SPACE, DEFAULT_FG, DEFAULT_BG);
      OneCellShows(before, fb[..], page.cells, cursorPos, Cell(SPACE, Attr(DEFAULT_FG, DEFAULT_BG)));
      page := Erased(page);
    }

    method ClearScreen()
      requires fb.Length == 2 * CELLS
      modifies this`cursorPos, this`page, this`activeFg, this`activeBg, fb
      ensures Valid() && page == Cleared() && activeFg == DEFAULT_FG && activeBg == DEFAULT_BG
      ensures cursorPos == 0 && forall i :: 0 <= i < CELLS ==> CellAt(fb[..], i) == Cell(0x20, 0x1F)
    {
      activeFg, activeBg := DEFAULT_FG, DEFAULT_BG;
      Wipe(0, CELLS, activeFg, activeBg);
      cursorPos := 0;
      page := Cleared();
    }
  }

  /** One cell written on the screen is that cell written on the page. */
  lemma OneCellShows(was: seq<Byte>, now: seq<Byte>, cells: seq<Cell>, i: nat, cell: Cell)
    requires Shows(was, cells) && |now| == 2 * CELLS && i < CELLS && CellAt(now, i) == cell
    requires forall j :: 0 <= j < CELLS && j != i ==> CellAt(now, j) == CellAt(was, j)
    ensures Shows(now, cells[|cells| - CELLS + i := cell])
  {
  }

  /** The first n cells hold what was one row below them; the others are as they were. */
  ghost predicate MovedUp(was: seq<Byte>, now: seq<Byte>, n: int) {
    && |was| == |now| == 2 * CELLS && n + COLUMNS <= CELLS
    && (forall j :: 0 <= j < n ==> CellAt(now, j) == CellAt(was, j + COLUMNS))
    && (forall j :: 0 <= n <= j < CELLS ==> CellAt(now, j) == CellAt(was, j))
  }

  lemma MovedOneMore(was: seq<Byte>, now: seq<Byte>, next: seq<Byte>, i: nat)
    requires MovedUp(was, now, i) && i + COLUMNS < CELLS && |next| == 2 * CELLS
    requires CellAt(next, i) == CellAt(now, i + COLUMNS)
    requires forall j :: 0 <= j < CELLS && j != i ==> CellAt(next, j) == CellAt(now, j)
    ensures MovedUp(was, next, i + 1)
  {
  }

  /** All rows moved up by one and the last one blank: what the page shows once a blank row is added. */
  lemma RowScrolled(was: seq<Byte>, moved: seq<Byte>, now: seq<Byte>, cells: seq<Cell>, all: seq<Cell>,
                    fg: Byte, bg: Byte)
    requires Shows(was, cells) && MovedUp(was, moved, 24 * COLUMNS) && |now| == 2 * CELLS
    requires forall j :: 0 <= j < CELLS ==>
               CellAt(now, j) == if 24 * COLUMNS <= j then Cell(SPACE, Attr(fg, bg)) else CellAt(moved, j)
    requires all == cells + Blank(COLUMNS, fg, bg)
    ensures Shows(now, all)
  {
    forall i | 0 <= i < CELLS
      ensures CellAt(now, i) == all[|all| - CELLS + i]
    {
      if i < 24 * COLUMNS {
        var from := i + COLUMNS;
        assert CellAt(moved, i) == CellAt(was, from) == cells[|cells| - CELLS + from];
      }
    }
  }

  /** Rows 1 to 24 are where rows 0 to 23 were, and the last row is blank in the given colours. */
  ghost predicate RolledUp(was: seq<Byte>, now: seq<Byte>, fg: Byte, bg: Byte) {
    && |was| == |now| == 2 * CELLS
    && forall i :: 0 <= i < CELLS ==>
         if i < 1920 then CellAt(now, i) == CellAt(was, i + 80) else Looks(CellAt(now, i), 0x20, fg, bg)
  }

  lemma RowBlank(was: seq<Byte>, moved: seq<Byte>, now: seq<Byte>, fg: Byte, bg: Byte)
    requires MovedUp(was, moved, 24 * COLUMNS) && |now| == 2 * CELLS
    requires forall j :: 0 <= j < CELLS ==>
               CellAt(now, j) == if 24 * COLUMNS <= j then Cell(SPACE, Attr(fg, bg)) else CellAt(moved, j)
    ensures RolledUp(was, now, fg, bg)
  {
    AttrHalves(fg, bg);
  }

  /** One character on the 2000 cells and the cursor: a full screen rolls up first, whatever the device; the frame
      buffer then takes the character, or moves to the next row. */
  ghost predicate PutOnScreen(was: seq<Byte>, at: nat, device: Device, c: Byte, fg: Byte, bg: Byte,
                              now: seq<Byte>, at': nat) {
    var cursor := if at >= 2000 then 1920 else at;
    && |was| == |now| == 2 * CELLS
    && at' == (if device == Serial then cursor else if c == 10 then (cursor / 80 + 1) * 80 else cursor + 1)
    && forall i :: 0 <= i < CELLS ==>
         if device == FrameBuffer && c != 10 && i == cursor then Looks(CellAt(now, i), c, fg, bg)
         else if at < 2000 then CellAt(now, i) == CellAt(was, i)
         else if i < 1920 then CellAt(now, i) == CellAt(was, i + 80)
         else Looks(CellAt(now, i), 0x20, fg, bg)
  }

  lemma NextRow(pos: nat, top: nat, end: nat)
    requires top % COLUMNS == 0 && top <= pos && end % COLUMNS == 0
    ensures (pos / COLUMNS + 1) * COLUMNS - top == ((pos - top) / COLUMNS + 1) * COLUMNS
    ensures pos < end ==> (pos / COLUMNS + 1) * COLUMNS <= end
  {
    var q := top / COLUMNS;
    assert top == q * COLUMNS;
    assert (pos - top) / COLUMNS == pos / COLUMNS - q;
  }

  /** The text has been printed from a page and a colour on, leaving another page and colour. */
  ghost predicate Printed(before: Page, text: seq<Byte>, fg: Byte, bg: Byte, after: Page, colour: Byte) {
    && before.Valid()
    && after == PutAll(before, Glyphs(text, fg, bg))
    && colour == LastColour(text, fg)
  }

  lemma PrintStep(p: Page, str: seq<Byte>, i: nat, fg: Byte, bg: Byte)
    requires p.Valid() && i < |str|
    ensures var c, color := str[i], LastColour(str[..i], fg);
            && LastColour(str[..i + 1], fg) == (if IsColour(c) then c else color)
            && PutAll(p, Glyphs(str[..i + 1], fg, bg)) ==
               if IsColour(c) then PutAll(p, Glyphs(str[..i], fg, bg))
               else Put(PutAll(p, Glyphs(str[..i], fg, bg)), FrameBuffer, c, color, bg)
  {
    assert str[..i + 1] == str[..i] + [str[i]];
    GlyphsSnoc(str[..i], str[i], fg, bg);
    PutAllSnoc(p, Glyphs(str[..i], fg, bg), Glyph(str[i], LastColour(str[..i], fg), bg));
  }
}
