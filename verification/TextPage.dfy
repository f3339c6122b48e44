/** What the text engine of utils.c shows, as an unbounded page of 80-column rows. */
module TextPage {
  import opened CStrings

  const COLUMNS := 80
  const CELLS := 2000
  const DEFAULT_FG: Byte := 15
  const DEFAULT_BG: Byte := 1
  const SPACE: Byte := 0x20
  const NEWLINE: Byte := 10
  const TAB: Byte := 9

  datatype Device = FrameBuffer | Serial

  datatype Cell = Cell(ch: Byte, attr: Byte)

  /** The VGA attribute byte: the low four bits of bg above the low four bits of fg. */
  function Attr(fg: Byte, bg: Byte): Byte {
    bg % 16 * 16 + fg % 16
  }

  lemma AttrHalves(fg: Byte, bg: Byte)
    ensures Attr(fg, bg) % 16 == fg % 16 && Attr(fg, bg) / 16 == bg % 16
  {
  }

  /** A cell with a character in given colours: the foreground in the low half of its attribute, the background in the
      high half. */
  ghost predicate Looks(cell: Cell, ch: Byte, fg: Byte, bg: Byte) {
    cell.ch == ch && cell.attr % 16 == fg % 16 && cell.attr / 16 == bg % 16
  }

  lemma LooksLike(cell: Cell, ch: Byte, fg: Byte, bg: Byte)
    ensures Looks(cell, ch, fg, bg) <==> cell == Cell(ch, Attr(fg, bg))
  {
    AttrHalves(fg, bg);
    var attr := cell.attr;
    assert attr == attr / 16 * 16 + attr % 16;
  }

  /** Everything written since the screen was cleared, and where the next character goes. */
  datatype Page = Page(cells: seq<Cell>, pos: nat) {
    /** The first cell that is still on the screen: whole rows have scrolled away above it. */
    function Top(): int { |cells| - CELLS }

    ghost predicate Valid() {
      |cells| >= CELLS && |cells| % COLUMNS == 0 && Top() <= pos <= |cells|
    }
  }

  ghost function Blank(n: nat, fg: Byte, bg: Byte): seq<Cell> {
    seq(n, i => Cell(SPACE, Attr(fg, bg)))
  }

  ghost function Cleared(): Page {
    Page(Blank(CELLS, DEFAULT_FG, DEFAULT_BG), 0)
  }

  /** Room for the next character: a fresh row in its colours when the page is full. */
  ghost function Extended(p: Page, fg: Byte, bg: Byte): Page {
    if p.pos >= |p.cells| then p.(cells := p.cells + Blank(COLUMNS, fg, bg)) else p
  }

  /** One character: a newline moves to the next row, anything else fills a cell. */
  ghost function Put(p: Page, device: Device, c: Byte, fg: Byte, bg: Byte): (r: Page)
    requires p.Valid()
    ensures r.Valid()
  {
    var q := Extended(p, fg, bg);
    if device == Serial then q
    else if c == NEWLINE then q.(pos := (q.pos / COLUMNS + 1) * COLUMNS)
    else Page(q.cells[q.pos := Cell(c, Attr(fg, bg))], q.pos + 1)
  }

  /** The cell before the cursor blanked in the default colours, and the cursor on it. */
  ghost function Erased(p: Page): (r: Page)
    requires p.Valid() && p.pos > p.Top()
    ensures r.Valid()
  {
    Page(p.cells[p.pos - 1 := Cell(SPACE, Attr(DEFAULT_FG, DEFAULT_BG))], p.pos - 1)
  }

  // ----- Text on the page

  /** A character with its colours. */
  datatype Glyph = Glyph(ch: Byte, fg: Byte, bg: Byte)

  ghost function PutAll(p: Page, gs: seq<Glyph>): (r: Page)
    requires p.Valid()
    ensures r.Valid()
    decreases |gs|
  {
    if gs == [] then p
    else
      var g := gs[|gs| - 1];
      Put(PutAll(p, gs[..|gs| - 1]), FrameBuffer, g.ch, g.fg, g.bg)
  }

  /** Where character number i of the text goes. */
  ghost function Position(start: nat, gs: seq<Glyph>): nat
    decreases |gs|
  {
    if gs == [] then start
    else
      var before := Position(start, gs[..|gs| - 1]);
      if gs[|gs| - 1].ch == NEWLINE then (before / COLUMNS + 1) * COLUMNS else before + 1
  }

  /** Printing leaves everything before the cursor alone, and the cursor ends where the layout says. */
  lemma {:induction false} TextKeepsPast(p: Page, gs: seq<Glyph>)
    requires p.Valid()
    ensures PutAll(p, gs).pos == Position(p.pos, gs) >= p.pos
    ensures |PutAll(p, gs).cells| >= |p.cells|
    ensures forall k :: 0 <= k < p.pos ==> PutAll(p, gs).cells[k] == p.cells[k]
    decreases |gs|
  {
    if gs != [] {
      TextKeepsPast(p, gs[..|gs| - 1]);
    }
  }

  /** Every character moves the cursor on. */
  lemma {:induction false} TextMoves(p: Page, gs: seq<Glyph>)
    requires p.Valid()
    ensures PutAll(p, gs).pos >= p.pos + |gs|
    decreases |gs|
  {
    if gs != [] {
      TextMoves(p, gs[..|gs| - 1]);
    }
  }

  /** Every printed character is on the page, where the layout puts it, in its colours, for good. */
  lemma {:induction false} TextStays(p: Page, gs: seq<Glyph>, i: nat)
    requires p.Valid() && i < |gs| && gs[i].ch != NEWLINE
    ensures Position(p.pos, gs[..i]) < PutAll(p, gs).pos
    ensures PutAll(p, gs).cells[Position(p.pos, gs[..i])] == Cell(gs[i].ch, Attr(gs[i].fg, gs[i].bg))
    decreases |gs|
  {
    var front := gs[..|gs| - 1];
    TextKeepsPast(p, front);
    TextKeepsPast(p, gs);
    if i < |gs| - 1 {
      assert front[..i] == gs[..i];
      TextStays(p, front, i);
    } else {
      assert front == gs[..i];
    }
  }

  /** A cell of the old page that no character of the text lands on keeps what it held. */
  lemma {:induction false} GapsStay(p: Page, gs: seq<Glyph>, k: nat)
    requires p.Valid() && k < |p.cells|
    requires forall i :: 0 <= i < |gs| && gs[i].ch != NEWLINE ==> Position(p.pos, gs[..i]) != k
    ensures k < |PutAll(p, gs).cells| && PutAll(p, gs).cells[k] == p.cells[k]
    decreases |gs|
  {
    if gs != [] {
      var last := |gs| - 1;
      var front := gs[..last];
      forall i | 0 <= i < |front| && front[i].ch != NEWLINE
        ensures Position(p.pos, front[..i]) != k
      {
        assert front[..i] == gs[..i];
      }
      GapsStay(p, front, k);
      TextKeepsPast(p, front);
    }
  }

  /** A cell of a new row that no character lands on is a space, in the colours of the character that made room. */
  lemma {:induction false} NewRowsBlank(p: Page, gs: seq<Glyph>, k: nat) returns (i: nat)
    requires p.Valid() && |p.cells| <= k < |PutAll(p, gs).cells|
    requires forall j :: 0 <= j < |gs| && gs[j].ch != NEWLINE ==> Position(p.pos, gs[..j]) != k
    ensures i < |gs| && Position(p.pos, gs[..i]) == k / 80 * 80
    ensures Looks(PutAll(p, gs).cells[k], 0x20, gs[i].fg, gs[i].bg)
    decreases |gs|
  {
    var last := |gs| - 1;
    var front, g := gs[..last], gs[last];
    TextKeepsPast(p, front);
    PutShows(PutAll(p, front), g.ch, g.fg, g.bg);
    if k < |PutAll(p, front).cells| {
      forall j | 0 <= j < |front| && front[j].ch != NEWLINE
        ensures Position(p.pos, front[..j]) != k
      {
        assert front[..j] == gs[..j];
      }
      i := NewRowsBlank(p, front, k);
      assert front[..i] == gs[..i];
    } else {
      i := last;
      RowStart(|PutAll(p, front).cells|, k);
    }
  }

  lemma RowStart(start: nat, k: nat)
    requires start % 80 == 0 && start <= k < start + 80
    ensures k / 80 * 80 == start
  {
    var q := start / 80;
    assert start == q * 80 && k / 80 == q;
  }

  // ----- Inline colours

  ghost predicate IsColour(c: Byte) {
    1 <= c <= 15 && c != NEWLINE
  }

  /** The characters of a string that are printed, each in the colours set by the last code before it. */
  ghost function Glyphs(text: seq<Byte>, fg: Byte, bg: Byte): seq<Glyph>
    decreases |text|
  {
    if text == [] then []
    else
      var front, c := text[..|text| - 1], text[|text| - 1];
      if IsColour(c) then Glyphs(front, fg, bg)
      else Glyphs(front, fg, bg) + [Glyph(c, LastColour(front, fg), bg)]
  }

  /** The colour in force after a string: its last colour code, or the one before. */
  ghost function LastColour(text: seq<Byte>, fg: Byte): Byte
    decreases |text|
  {
    if text == [] then fg
    else if IsColour(text[|text| - 1]) then text[|text| - 1]
    else LastColour(text[..|text| - 1], fg)
  }

  lemma GlyphsSnoc(text: seq<Byte>, c: Byte, fg: Byte, bg: Byte)
    ensures Glyphs(text + [c], fg, bg) ==
            if IsColour(c) then Glyphs(text, fg, bg) else Glyphs(text, fg, bg) + [Glyph(c, LastColour(text, fg), bg)]
    ensures LastColour(text + [c], fg) == if IsColour(c) then c else LastColour(text, fg)
  {
    assert (text + [c])[..|text|] == text;
  }

  lemma PutAllSnoc(p: Page, gs: seq<Glyph>, g: Glyph)
    requires p.Valid()
    ensures PutAll(p, gs + [g]) == Put(PutAll(p, gs), FrameBuffer, g.ch, g.fg, g.bg)
  {
    assert (gs + [g])[..|gs|] == gs;
  }

  /** No cell ever shows a colour code. */
  ghost predicate NoCodes(p: Page) {
    forall k :: 0 <= k < |p.cells| ==> !IsColour(p.cells[k].ch)
  }

  lemma {:induction false} PrintedNoCodes(p: Page, text: seq<Byte>, fg: Byte, bg: Byte)
    requires p.Valid() && NoCodes(p)
    ensures NoCodes(PutAll(p, Glyphs(text, fg, bg)))
    decreases |text|
  {
    if text != [] {
      var front, c := text[..|text| - 1], text[|text| - 1];
      PrintedNoCodes(p, front, fg, bg);
      if !IsColour(c) {
        PutAllSnoc(p, Glyphs(front, fg, bg), Glyph(c, LastColour(front, fg), bg));
      }
    }
  }

  // ----- What a string looks like on the page

  /** Where the cursor is after a string. */
  ghost function Cursor(start: nat, text: seq<Byte>): nat
    decreases |text|
  {
    if text == [] then start
    else
      var at, c := Cursor(start, text[..|text| - 1]), text[|text| - 1];
      if IsColour(c) then at else if c == 10 then (at / 80 + 1) * 80 else at + 1
  }

  /** The colour in force is that of the last byte from 1 to 15 other than a newline. */
  lemma {:induction false} LastColourIs(text: seq<Byte>, fg: Byte, j: nat)
    requires j < |text| && 1 <= text[j] <= 15 && text[j] != 10
    requires forall i :: j < i < |text| ==> !(1 <= text[i] <= 15 && text[i] != 10)
    ensures LastColour(text, fg) == text[j]
    decreases |text|
  {
    if j < |text| - 1 {
      LastColourIs(text[..|text| - 1], fg, j);
    }
  }

  /** Without such a byte it is the one before. */
  lemma {:induction false} ColourStays(text: seq<Byte>, fg: Byte)
    requires forall i :: 0 <= i < |text| ==> !(1 <= text[i] <= 15 && text[i] != 10)
    ensures LastColour(text, fg) == fg
    decreases |text|
  {
    if text != [] {
      ColourStays(text[..|text| - 1], fg);
    }
  }

  /** Byte i is printed on cell k. */
  ghost predicate Lands(start: nat, text: seq<Byte>, i: int, k: int) {
    0 <= i < |text| && !IsColour(text[i]) && text[i] != 10 && Cursor(start, text[..i]) == k
  }

  /** Byte i is put when the cursor is at the start of the row of cell k, where the page ended until then. */
  ghost predicate Opens(start: nat, text: seq<Byte>, i: int, k: int) {
    0 <= i < |text| && !IsColour(text[i]) && Cursor(start, text[..i]) == k / 80 * 80
  }

  /** Cell k of the new page: the byte that lands on it, or what was there, or in a new row a blank in the colours of
      the byte that made room. */
  ghost predicate CellShows(p: Page, fg: Byte, bg: Byte, text: seq<Byte>, cell: Cell, k: nat) {
    && (forall i :: Lands(p.pos, text, i, k) ==> Looks(cell, text[i], LastColour(text[..i], fg), bg))
    && ((forall i :: !Lands(p.pos, text, i, k)) ==>
          if k < |p.cells| then cell == p.cells[k]
          else exists i :: Opens(p.pos, text, i, k) && Looks(cell, 0x20, LastColour(text[..i], fg), bg))
  }

  /** How far the page goes: past every byte that is put, and beyond its old end only in rows that they opened. */
  ghost predicate RowsFor(start: nat, text: seq<Byte>, before: nat, after: nat) {
    && after >= before && after % 80 == 0
    && (forall i :: 0 <= i < |text| && !IsColour(text[i]) ==> Cursor(start, text[..i]) < after)
    && (after > before ==> RowOpened(start, text, after - 80))
  }

  ghost predicate RowOpened(start: nat, text: seq<Byte>, k: int) {
    exists i :: Opens(start, text, i, k)
  }

  /** The page and the text colour after a string in the given colours, byte by byte and cell by cell. */
  ghost predicate Displayed(p: Page, fg: Byte, bg: Byte, text: seq<Byte>, q: Page, colour: Byte) {
    && q.pos == Cursor(p.pos, text) && colour == LastColour(text, fg)
    && RowsFor(p.pos, text, |p.cells|, |q.cells|)
    && forall k :: 0 <= k < |q.cells| ==> CellShows(p, fg, bg, text, q.cells[k], k)
  }

  lemma {:induction false} CursorMoves(start: nat, text: seq<Byte>, i: nat)
    requires i < |text|
    ensures Cursor(start, text[..i]) <= Cursor(start, text)
    ensures !IsColour(text[i]) ==> Cursor(start, text[..i]) < Cursor(start, text)
    decreases |text|
  {
    var front := text[..|text| - 1];
    if i < |front| {
      assert front[..i] == text[..i];
      CursorMoves(start, front, i);
    }
  }

  /** One more byte. */
  lemma Snoc(start: nat, text: seq<Byte>, fg: Byte, c: Byte)
    ensures forall i {:trigger (text + [c])[..i]} :: 0 <= i <= |text| ==> (text + [c])[..i] == text[..i]
    ensures text[..|text|] == text
    ensures Cursor(start, text + [c]) ==
            var at := Cursor(start, text); if IsColour(c) then at else if c == 10 then (at / 80 + 1) * 80 else at + 1
    ensures LastColour(text + [c], fg) == if IsColour(c) then c else LastColour(text, fg)
  {
    assert (text + [c])[..|text|] == text;
  }

  /** One character put: the cursor, the rows and every cell. */
  lemma PutShows(p: Page, c: Byte, fg: Byte, bg: Byte)
    requires p.Valid()
    ensures var q := Put(p, FrameBuffer, c, fg, bg);
            && q.pos == (if c == 10 then (p.pos / 80 + 1) * 80 else p.pos + 1)
            && |q.cells| == (if p.pos == |p.cells| then |p.cells| + 80 else |p.cells|)
            && forall k {:trigger q.cells[k]} :: 0 <= k < |q.cells| ==>
                 if c != 10 && k == p.pos then Looks(q.cells[k], c, fg, bg)
                 else if k < |p.cells| then q.cells[k] == p.cells[k]
                 else Looks(q.cells[k], 0x20, fg, bg)
  {
    AttrHalves(fg, bg);
  }

  lemma LandsSnoc(start: nat, text: seq<Byte>, c: Byte, i: int, k: int)
    ensures Lands(start, text + [c], i, k) <==>
            if i == |text| then !IsColour(c) && c != 10 && Cursor(start, text) == k else Lands(start, text, i, k)
    ensures Opens(start, text + [c], i, k) <==>
            if i == |text| then !IsColour(c) && Cursor(start, text) == k / 80 * 80 else Opens(start, text, i, k)
  {
    Snoc(start, text, 0, c);
  }

  /** A cell that the next byte leaves alone. */
  lemma CellKept(p: Page, fg: Byte, bg: Byte, text: seq<Byte>, cell: Cell, k: nat, c: Byte)
    requires CellShows(p, fg, bg, text, cell, k) && (IsColour(c) || c == 10 || Cursor(p.pos, text) != k)
    ensures CellShows(p, fg, bg, text + [c], cell, k)
  {
    var all := text + [c];
    Snoc(p.pos, text, fg, c);
    forall i | Lands(p.pos, all, i, k)
      ensures Looks(cell, all[i], LastColour(all[..i], fg), bg)
    {
      LandsSnoc(p.pos, text, c, i, k);
      assert text[i] == all[i] && text[..i] == all[..i];
    }
    if forall i :: 0 <= i < |all| ==> !Lands(p.pos, all, i, k) {
      forall i | 0 <= i < |text|
        ensures !Lands(p.pos, text, i, k)
      {
        LandsSnoc(p.pos, text, c, i, k);
        assert !Lands(p.pos, all, i, k) by { assert all[i] == text[i]; }
      }
      if k >= |p.cells| {
        var i :| Opens(p.pos, text, i, k) && Looks(cell, 0x20, LastColour(text[..i], fg), bg);
        LandsSnoc(p.pos, text, c, i, k);
        assert all[..i] == text[..i] && all[i] == text[i];
      }
    }
  }

  /** A cell on which the next byte is the first to land. */
  lemma CellFilled(p: Page, fg: Byte, bg: Byte, text: seq<Byte>, cell: Cell, k: nat, c: Byte)
    requires Looks(cell, c, LastColour(text, fg), bg) && !IsColour(c) && c != 10 && Cursor(p.pos, text) == k
    ensures CellShows(p, fg, bg, text + [c], cell, k)
  {
    var all := text + [c];
    Snoc(p.pos, text, fg, c);
    forall i | Lands(p.pos, all, i, k)
      ensures i == |text|
    {
      LandsSnoc(p.pos, text, c, i, k);
      if i < |text| {
        CursorMoves(p.pos, text, i);
      }
    }
    LandsSnoc(p.pos, text, c, |text|, k);
    assert all[|text|] == c;
  }

  /** A cell of the row that the next byte opens. */
  lemma CellOpened(p: Page, fg: Byte, bg: Byte, text: seq<Byte>, cell: Cell, k: nat, c: Byte)
    requires Looks(cell, 0x20, LastColour(text, fg), bg) && !IsColour(c) && |p.cells| <= k
    requires Cursor(p.pos, text) == k / 80 * 80 && (c == 10 || k != Cursor(p.pos, text))
    requires forall i {:trigger text[i]} :: 0 <= i < |text| && !IsColour(text[i]) ==> Cursor(p.pos, text[..i]) < k
    ensures CellShows(p, fg, bg, text + [c], cell, k)
  {
    var all := text + [c];
    Snoc(p.pos, text, fg, c);
    forall i | 0 <= i < |all|
      ensures !Lands(p.pos, all, i, k)
    {
      LandsSnoc(p.pos, text, c, i, k);
      assert i < |text| ==> all[i] == text[i];
    }
    LandsSnoc(p.pos, text, c, |text|, k);
    assert all[|text|] == c;
  }

  lemma CellPut(p: Page, fg: Byte, bg: Byte, text: seq<Byte>, q: Page, colour: Byte, c: Byte, k: nat)
    requires p.Valid() && q.Valid() && Displayed(p, fg, bg, text, q, colour) && !IsColour(c)
    requires k < |Put(q, FrameBuffer, c, colour, bg).cells|
    ensures CellShows(p, fg, bg, text + [c], Put(q, FrameBuffer, c, colour, bg).cells[k], k)
  {
    var r := Put(q, FrameBuffer, c, colour, bg);
    PutShows(q, c, colour, bg);
    assert k < |q.cells| ==> CellShows(p, fg, bg, text, q.cells[k], k);
    if c != 10 && k == q.pos {
      CellFilled(p, fg, bg, text, r.cells[k], k, c);
    } else if k < |q.cells| {
      CellKept(p, fg, bg, text, r.cells[k], k, c);
    } else {
      CellOpened(p, fg, bg, text, r.cells[k], k, c);
    }
  }

  lemma OpensSnoc(start: nat, text: seq<Byte>, c: Byte, i: int, k: int)
    requires Opens(start, text, i, k)
    ensures Opens(start, text + [c], i, k)
  {
    LandsSnoc(start, text, c, i, k);
  }

  lemma RowsSwitch(start: nat, text: seq<Byte>, before: nat, after: nat, c: Byte)
    requires RowsFor(start, text, before, after) && (IsColour(c) || Cursor(start, text) < after)
    ensures RowsFor(start, text + [c], before, after)
  {
    var all := text + [c];
    Snoc(start, text, 0, c);
    forall i | 0 <= i < |all| && !IsColour(all[i])
      ensures Cursor(start, all[..i]) < after
    {
      assert i < |text| ==> text[i] == all[i];
    }
    if after > before {
      var i :| Opens(start, text, i, after - 80);
      OpensSnoc(start, text, c, i, after - 80);
    }
  }

  lemma RowsOpened(start: nat, text: seq<Byte>, before: nat, after: nat, c: Byte)
    requires RowsFor(start, text, before, after) && !IsColour(c) && Cursor(start, text) == after
    ensures RowsFor(start, text + [c], before, after + 80)
  {
    var all := text + [c];
    Snoc(start, text, 0, c);
    forall i | 0 <= i < |all| && !IsColour(all[i])
      ensures Cursor(start, all[..i]) < after + 80
    {
      assert i < |text| ==> text[i] == all[i];
    }
    LandsSnoc(start, text, c, |text|, after);
    assert Opens(start, all, |text|, after);
  }

  lemma DisplayedPut(p: Page, fg: Byte, bg: Byte, text: seq<Byte>, q: Page, colour: Byte, c: Byte)
    requires p.Valid() && q.Valid() && Displayed(p, fg, bg, text, q, colour) && !IsColour(c)
    ensures Displayed(p, fg, bg, text + [c], Put(q, FrameBuffer, c, colour, bg), colour)
  {
    var r := Put(q, FrameBuffer, c, colour, bg);
    Snoc(p.pos, text, fg, c);
    PutShows(q, c, colour, bg);
    if q.pos == |q.cells| {
      RowsOpened(p.pos, text, |p.cells|, |q.cells|, c);
    } else {
      RowsSwitch(p.pos, text, |p.cells|, |q.cells|, c);
    }
    forall k | 0 <= k < |r.cells|
      ensures CellShows(p, fg, bg, text + [c], r.cells[k], k)
    {
      CellPut(p, fg, bg, text, q, colour, c, k);
    }
  }

  lemma DisplayedSwitch(p: Page, fg: Byte, bg: Byte, text: seq<Byte>, q: Page, colour: Byte, c: Byte)
    requires Displayed(p, fg, bg, text, q, colour) && IsColour(c)
    ensures Displayed(p, fg, bg, text + [c], q, c)
  {
    Snoc(p.pos, text, fg, c);
    RowsSwitch(p.pos, text, |p.cells|, |q.cells|, c);
    forall k | 0 <= k < |q.cells|
      ensures CellShows(p, fg, bg, text + [c], q.cells[k], k)
    {
      CellKept(p, fg, bg, text, q.cells[k], k, c);
    }
  }

  lemma NothingDisplayed(p: Page, fg: Byte, bg: Byte)
    requires p.Valid()
    ensures Displayed(p, fg, bg, [], p, fg)
  {
  }

  /** A string printed from any page shows on it byte by byte. */
  lemma {:induction false} TextDisplayed(p: Page, fg: Byte, bg: Byte, text: seq<Byte>)
    requires p.Valid()
    ensures Displayed(p, fg, bg, text, PutAll(p, Glyphs(text, fg, bg)), LastColour(text, fg))
    decreases |text|
  {
    if text == [] {
      NothingDisplayed(p, fg, bg);
    } else {
      var front, c := text[..|text| - 1], text[|text| - 1];
      var q, colour := PutAll(p, Glyphs(front, fg, bg)), LastColour(front, fg);
      TextDisplayed(p, fg, bg, front);
      assert front + [c] == text;
      if IsColour(c) {
        DisplayedSwitch(p, fg, bg, front, q, colour, c);
      } else {
        PutAllSnoc(p, Glyphs(front, fg, bg), Glyph(c, colour, bg));
        DisplayedPut(p, fg, bg, front, q, colour, c);
      }
    }
  }

  lemma RowsDiffer(start: nat, text: seq<Byte>, before: nat, after: nat, after': nat)
    requires RowsFor(start, text, before, after) && RowsFor(start, text, before, after')
    ensures after' <= after
  {
    if after' > before {
      var i :| Opens(start, text, i, after' - 80);
      assert after' - 80 == Cursor(start, text[..i]) < after;
    }
  }

  lemma CursorLater(start: nat, text: seq<Byte>, i: nat, j: nat)
    requires i < j <= |text| && !IsColour(text[i])
    ensures Cursor(start, text[..i]) < Cursor(start, text[..j])
  {
    assert text[..j][..i] == text[..i];
    CursorMoves(start, text[..j], i);
  }

  lemma SameOpener(start: nat, text: seq<Byte>, i: int, j: int, k: nat)
    requires Opens(start, text, i, k) && Opens(start, text, j, k)
    ensures i == j
  {
    if i < j {
      CursorLater(start, text, i, j);
    } else if j < i {
      CursorLater(start, text, j, i);
    }
  }

  lemma SameCell(p: Page, fg: Byte, bg: Byte, text: seq<Byte>, cell: Cell, cell': Cell, k: nat)
    requires CellShows(p, fg, bg, text, cell, k) && CellShows(p, fg, bg, text, cell', k)
    ensures cell == cell'
  {
    if i :| Lands(p.pos, text, i, k) {
      LooksLike(cell, text[i], LastColour(text[..i], fg), bg);
      LooksLike(cell', text[i], LastColour(text[..i], fg), bg);
    } else if k >= |p.cells| {
      var i :| Opens(p.pos, text, i, k) && Looks(cell, 0x20, LastColour(text[..i], fg), bg);
      var j :| Opens(p.pos, text, j, k) && Looks(cell', 0x20, LastColour(text[..j], fg), bg);
      SameOpener(p.pos, text, i, j, k);
      LooksLike(cell, 0x20, LastColour(text[..i], fg), bg);
      LooksLike(cell', 0x20, LastColour(text[..j], fg), bg);
    }
  }

  /** Byte by byte and cell by cell: that leaves nothing open. */
  lemma DisplayedIsAll(p: Page, fg: Byte, bg: Byte, text: seq<Byte>, q: Page, colour: Byte, q': Page, colour': Byte)
    requires Displayed(p, fg, bg, text, q, colour) && Displayed(p, fg, bg, text, q', colour')
    ensures q == q' && colour == colour'
  {
    RowsDiffer(p.pos, text, |p.cells|, |q.cells|, |q'.cells|);
    RowsDiffer(p.pos, text, |p.cells|, |q'.cells|, |q.cells|);
    forall k | 0 <= k < |q.cells|
      ensures q.cells[k] == q'.cells[k]
    {
      SameCell(p, fg, bg, text, q.cells[k], q'.cells[k], k);
    }
  }

  lemma {:induction false} CursorAhead(start: nat, text: seq<Byte>)
    ensures Cursor(start, text) >= start
    decreases |text|
  {
    if text != [] {
      CursorAhead(start, text[..|text| - 1]);
    }
  }

  /** In particular the cells before the cursor are kept, and the cursor does not go back. */
  lemma DisplayedAhead(p: Page, fg: Byte, bg: Byte, text: seq<Byte>, q: Page, colour: Byte)
    requires p.Valid() && Displayed(p, fg, bg, text, q, colour)
    ensures q.pos >= p.pos && |q.cells| >= |p.cells|
    ensures forall k :: 0 <= k < p.pos ==> q.cells[k] == p.cells[k]
  {
    CursorAhead(p.pos, text);
    forall k | 0 <= k < p.pos
      ensures q.cells[k] == p.cells[k]
    {
      assert CellShows(p, fg, bg, text, q.cells[k], k);
      forall i | 0 <= i < |text|
        ensures !Lands(p.pos, text, i, k)
      {
        CursorAhead(p.pos, text[..i]);
      }
    }
  }
}
