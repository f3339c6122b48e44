/** Sequences of map_user_page calls on a new user directory: which pages keep their last mapping. */
module UserRuns {
  import opened Frames
  import opened PageTables
  import opened Paging
  import opened UserTables
  import opened Wrappers

  /** One call of map_user_page, with the frame that allocate_frame returned in it: 0 when there was none, and of no
      account when the slot had a table. */
  datatype UserCall = UserCall(v: nat, p: nat, got: nat)

  // ----- What the calls ask for

  /** The table frame of every slot that a call has used. */
  ghost function Tables(calls: seq<UserCall>): map<nat, nat> {
    if calls == [] then map[]
    else
      var before, c := Tables(calls[..|calls| - 1]), calls[|calls| - 1];
      if Slot(c.v) in before then before else before[Slot(c.v) := c.got]
  }

  /** The address last mapped to the page of slot s and entry e. */
  ghost function Last(calls: seq<UserCall>, s: nat, e: nat): Option<nat> {
    if calls == [] then None
    else
      var c := calls[|calls| - 1];
      if Slot(c.v) == s && Entry(c.v) == e then Some(c.p) else Last(calls[..|calls| - 1], s, e)
  }

  /** Address w, when its page is mapped to p. */
  ghost function Placed(p: Option<nat>, w: nat): Option<nat> {
    match p
    case None => None
    case Some(p) => Some(p + w % PAGE)
  }

  lemma PlacedDiffers(p: Option<nat>, p': Option<nat>, w: nat)
    ensures Placed(p, w) == Placed(p', w) <==> p == p'
  {
  }

  /** Where address w should be by the last mapping of its page. */
  ghost function Expected(calls: seq<UserCall>, w: nat): Option<nat> {
    Placed(Last(calls, Slot(w), Entry(w)), w)
  }

  /** Slots that share a table frame had pages at the same place in it last mapped to the same address, or none. */
  ghost predicate Alike(calls: seq<UserCall>) {
    forall s, s', e: nat {:trigger Last(calls, s, e), Last(calls, s', e)} ::
      s in Tables(calls) && s' in Tables(calls) && Tables(calls)[s] == Tables(calls)[s'] && e < 1024
      ==> Last(calls, s, e) == Last(calls, s', e)
  }

  /** The table in frame f at entry e: the last call that wrote there, if no later one cleared the frame. */
  ghost function InFrame(calls: seq<UserCall>, f: nat, e: nat): Option<nat> {
    if calls == [] then None
    else
      var before, c := calls[..|calls| - 1], calls[|calls| - 1];
      if Tables(calls)[Slot(c.v)] != f then InFrame(before, f, e)
      else if Entry(c.v) == e then Some(c.p)
      else if Slot(c.v) in Tables(before) then InFrame(before, f, e)
      else None
  }

  lemma {:induction false} UnusedSlot(calls: seq<UserCall>, s: nat, e: nat)
    requires s !in Tables(calls)
    ensures Last(calls, s, e) == None
  {
    if calls != [] {
      UnusedSlot(calls[..|calls| - 1], s, e);
    }
  }

  /** Whatever a shared table holds, it holds for one of its slots. */
  lemma {:induction false} LastWriter(calls: seq<UserCall>, f: nat, e: nat) returns (s: nat)
    requires f in Tables(calls).Values
    ensures s in Tables(calls) && Tables(calls)[s] == f && InFrame(calls, f, e) == Last(calls, s, e)
  {
    var before, c := calls[..|calls| - 1], calls[|calls| - 1];
    if Tables(calls)[Slot(c.v)] != f || (Entry(c.v) != e && Slot(c.v) in Tables(before)) {
      s := LastWriter(before, f, e);
    } else {
      s := Slot(c.v);
      if Entry(c.v) != e {
        UnusedSlot(before, s, e);
      }
    }
  }

  /** What the table of slot s says at entry e. */
  ghost function Shown(calls: seq<UserCall>, s: nat, e: nat): Option<nat> {
    if s in Tables(calls) then InFrame(calls, Tables(calls)[s], e) else None
  }

  /** The tables hold what each slot should. */
  ghost predicate AllHold(calls: seq<UserCall>) {
    forall s, e: nat {:trigger Last(calls, s, e)} :: e < 1024 ==> Shown(calls, s, e) == Last(calls, s, e)
  }

  /** They do exactly when slots that share a table ask for the same. */
  lemma TablesRight(calls: seq<UserCall>)
    ensures AllHold(calls) <==> Alike(calls)
  {
    if Alike(calls) {
      forall s, e: nat | e < 1024
        ensures Shown(calls, s, e) == Last(calls, s, e)
      {
        if s in Tables(calls) {
          var w := LastWriter(calls, Tables(calls)[s], e);
        } else {
          UnusedSlot(calls, s, e);
        }
      }
    }
  }

  // ----- What the calls do to memory

  ghost predicate Sensible(mem: Memory, kdir: nat, ktab: nat, d: nat, c: UserCall) {
    && c.v < USER_TOP && c.p % PAGE == 0
    && IsFrame(mem, c.got) && c.got != d && c.got != kdir && c.got != ktab
  }

  ghost predicate AllSensible(mem: Memory, kdir: nat, ktab: nat, d: nat, calls: seq<UserCall>) {
    forall i :: 0 <= i < |calls| ==> Sensible(mem, kdir, ktab, d, calls[i])
  }

  ghost function Chosen(mem: Memory, d: nat, c: UserCall): nat
    requires IsFrame(mem, d) && c.v < USER_TOP
  {
    if Present(mem[d][Slot(c.v)]) then TableOf(mem, d, Slot(c.v)) else c.got
  }

  ghost predicate SameFrames(mem: Memory, mem': Memory) {
    forall f {:trigger IsFrame(mem', f)} :: IsFrame(mem, f) ==> IsFrame(mem', f)
  }

  lemma OneCall(mem: Memory, kdir: nat, ktab: nat, d: nat, c: UserCall)
    requires WellFormed(mem, kdir, ktab, d) && Sensible(mem, kdir, ktab, d, c)
    ensures var t := Chosen(mem, d, c);
            && IsFrame(mem, t) && t != d && t != kdir && t != ktab
            && WellFormed(MapUserIn(mem, kdir, ktab, d, t, c.v, c.p), kdir, ktab, d)
            && SameFrames(mem, MapUserIn(mem, kdir, ktab, d, t, c.v, c.p))
  {
    UserSlot(c.v);
    MapUserWellFormed(mem, kdir, ktab, d, Chosen(mem, d, c), c.v, c.p);
  }

  /** Memory after calls of map_user_page, first to last. */
  ghost function MapUserAll(mem: Memory, kdir: nat, ktab: nat, d: nat, calls: seq<UserCall>): (r: Memory)
    requires WellFormed(mem, kdir, ktab, d) && AllSensible(mem, kdir, ktab, d, calls)
    ensures WellFormed(r, kdir, ktab, d) && SameFrames(mem, r)
    decreases |calls|
  {
    if calls == [] then mem
    else
      var before, c := MapUserAll(mem, kdir, ktab, d, calls[..|calls| - 1]), calls[|calls| - 1];
      assert Sensible(mem, kdir, ktab, d, c);
      assert IsFrame(before, c.got);
      OneCall(before, kdir, ktab, d, c);
      MapUserIn(before, kdir, ktab, d, Chosen(before, d, c), c.v, c.p)
  }

  /** The slot of every call points at its table, and no other user slot is used. */
  ghost predicate SlotsAre(mem: Memory, d: nat, tables: map<nat, nat>)
    requires IsFrame(mem, d)
  {
    forall s: nat :: s < 768 ==>
      if s in tables then mem[d][s] == Or7(tables[s] * PAGE) && IsFrame(mem, tables[s]) else !Present(mem[d][s])
  }

  lemma SlotsStep(mem: Memory, kdir: nat, ktab: nat, d: nat, tables: map<nat, nat>, c: UserCall)
    requires WellFormed(mem, kdir, ktab, d) && Sensible(mem, kdir, ktab, d, c) && SlotsAre(mem, d, tables)
    ensures var t := if Slot(c.v) in tables then tables[Slot(c.v)] else c.got;
            && Chosen(mem, d, c) == t && IsFrame(mem, t)
            && IsFrame(MapUserIn(mem, kdir, ktab, d, t, c.v, c.p), d)
            && SlotsAre(MapUserIn(mem, kdir, ktab, d, t, c.v, c.p), d, tables[Slot(c.v) := t])
  {
    UserSlot(c.v);
    OneCall(mem, kdir, ktab, d, c);
    var t := if Slot(c.v) in tables then tables[Slot(c.v)] else c.got;
    EntryFields(t, 7);
    var after := MapUserIn(mem, kdir, ktab, d, t, c.v, c.p);
    assert forall s: nat :: s < 768 && s != Slot(c.v) ==> after[d][s] == mem[d][s];
    forall s: nat | s < 768 && s in tables
      ensures IsFrame(after, tables[s])
    {
      assert IsFrame(mem, tables[s]);
    }
  }

  lemma {:induction false} SlotsAfter(mem: Memory, kdir: nat, ktab: nat, d: nat, calls: seq<UserCall>)
    requires WellFormed(mem, kdir, ktab, d) && AllSensible(mem, kdir, ktab, d, calls) && SlotsAre(mem, d, map[])
    ensures SlotsAre(MapUserAll(mem, kdir, ktab, d, calls), d, Tables(calls))
    decreases |calls|
  {
    if calls != [] {
      var before, c := calls[..|calls| - 1], calls[|calls| - 1];
      SlotsAfter(mem, kdir, ktab, d, before);
      assert Sensible(mem, kdir, ktab, d, c);
      assert IsFrame(MapUserAll(mem, kdir, ktab, d, before), c.got);
      SlotsStep(MapUserAll(mem, kdir, ktab, d, before), kdir, ktab, d, Tables(before), c);
      assert Slot(c.v) in Tables(before) ==> Tables(before)[Slot(c.v) := Tables(before)[Slot(c.v)]] == Tables(before);
    }
  }

  /** An entry that maps the given address, or none. */
  ghost predicate Holds(word: nat, p: Option<nat>) {
    if p.None? then !Present(word) else word == Or7(p.value)
  }

  lemma WordStep(mem: Memory, kdir: nat, ktab: nat, d: nat, t: nat, c: UserCall, f: nat, e: nat)
    requires WellFormed(mem, kdir, ktab, d) && Sensible(mem, kdir, ktab, d, c) && e < 1024
    requires t == Chosen(mem, d, c) && IsFrame(mem, f) && f != d && f != kdir && f != ktab
    ensures var after := MapUserIn(mem, kdir, ktab, d, t, c.v, c.p);
            && IsFrame(mem, t) && t != d && t != kdir && t != ktab && IsFrame(after, f)
            && after[f][e] == if f != t then mem[f][e]
                              else if Entry(c.v) == e then Or7(c.p)
                              else if Present(mem[d][Slot(c.v)]) then mem[f][e]
                              else 0
  {
    OneCall(mem, kdir, ktab, d, c);
  }

  lemma TableFrames(mem: Memory, kdir: nat, ktab: nat, d: nat, calls: seq<UserCall>, s: nat)
    requires AllSensible(mem, kdir, ktab, d, calls) && s in Tables(calls)
    ensures s < 768 && IsFrame(mem, Tables(calls)[s])
    ensures Tables(calls)[s] != d && Tables(calls)[s] != kdir && Tables(calls)[s] != ktab
  {
    var before, c := calls[..|calls| - 1], calls[|calls| - 1];
    assert Sensible(mem, kdir, ktab, d, c);
    UserSlot(c.v);
    if s in Tables(before) {
      TableFrames(mem, kdir, ktab, d, before, s);
    }
  }

  /** What the last call does to a table. */
  lemma LastCall(mem: Memory, kdir: nat, ktab: nat, d: nat, calls: seq<UserCall>, f: nat, e: nat)
    requires WellFormed(mem, kdir, ktab, d) && AllSensible(mem, kdir, ktab, d, calls) && SlotsAre(mem, d, map[])
    requires calls != [] && IsFrame(mem, f) && f != d && f != kdir && f != ktab && e < 1024
    ensures var before, c := calls[..|calls| - 1], calls[|calls| - 1];
            var m, m' := MapUserAll(mem, kdir, ktab, d, before), MapUserAll(mem, kdir, ktab, d, calls);
            && IsFrame(m, f) && IsFrame(m', f)
            && m'[f][e] == if f != Tables(calls)[Slot(c.v)] then m[f][e]
                           else if Entry(c.v) == e then Or7(c.p)
                           else if Slot(c.v) in Tables(before) then m[f][e]
                           else 0
  {
    var before, c := calls[..|calls| - 1], calls[|calls| - 1];
    var m := MapUserAll(mem, kdir, ktab, d, before);
    assert Sensible(mem, kdir, ktab, d, c);
    assert IsFrame(m, c.got) && IsFrame(m, f);
    SlotsAfter(mem, kdir, ktab, d, before);
    SlotsStep(m, kdir, ktab, d, Tables(before), c);
    UserSlot(c.v);
    TablePresent(m, d, Tables(before), Slot(c.v));
    WordStep(m, kdir, ktab, d, Chosen(m, d, c), c, f, e);
  }

  lemma TablePresent(mem: Memory, d: nat, tables: map<nat, nat>, s: nat)
    requires IsFrame(mem, d) && SlotsAre(mem, d, tables) && s < 768
    ensures Present(mem[d][s]) <==> s in tables
  {
    if s in tables {
      EntryFields(tables[s], 7);
    }
  }

  /** In memory every table is as InFrame says. */
  lemma {:induction false} WordsAfter(mem: Memory, kdir: nat, ktab: nat, d: nat, calls: seq<UserCall>, s: nat, e: nat)
    requires WellFormed(mem, kdir, ktab, d) && AllSensible(mem, kdir, ktab, d, calls) && SlotsAre(mem, d, map[])
    requires s in Tables(calls) && e < 1024
    ensures var f := Tables(calls)[s];
            && IsFrame(MapUserAll(mem, kdir, ktab, d, calls), f)
            && Holds(MapUserAll(mem, kdir, ktab, d, calls)[f][e], InFrame(calls, f, e))
    decreases |calls|
  {
    var before, c := calls[..|calls| - 1], calls[|calls| - 1];
    TableFrames(mem, kdir, ktab, d, calls, s);
    LastCall(mem, kdir, ktab, d, calls, Tables(calls)[s], e);
    if s in Tables(before) {
      WordsAfter(mem, kdir, ktab, d, before, s, e);
    }
  }

  // ----- The pages

  /** A present entry resolves an address of its page. */
  lemma HeldLeaf(word: nat, p: Option<nat>, w: nat)
    requires Holds(word, p) && (p.Some? ==> p.value % PAGE == 0)
    ensures Leaf(word, w) == Placed(p, w)
  {
    if p.Some? {
      FlagsKeepFrame(p.value);
    }
  }

  lemma {:induction false} InFrameAligned(mem: Memory, kdir: nat, ktab: nat, d: nat, calls: seq<UserCall>, f: nat,
                                          e: nat)
    requires AllSensible(mem, kdir, ktab, d, calls)
    ensures InFrame(calls, f, e).Some? ==> InFrame(calls, f, e).value % PAGE == 0
  {
    if calls != [] {
      assert Sensible(mem, kdir, ktab, d, calls[|calls| - 1]);
      InFrameAligned(mem, kdir, ktab, d, calls[..|calls| - 1], f, e);
    }
  }

  lemma Walked(mem: Memory, d: nat, w: nat, s: nat, e: nat, f: nat, p: Option<nat>)
    requires IsFrame(mem, d) && w < USER_TOP && s == Slot(w) && e == Entry(w)
    requires mem[d][s] == Or7(f * PAGE) && IsFrame(mem, f) && Holds(mem[f][e], p) && (p.Some? ==> p.value % PAGE == 0)
    ensures Translate(mem, d, w) == Placed(p, w)
  {
    EntryFields(f, 7);
    HeldLeaf(mem[f][e], p, w);
  }

  lemma PageTranslates(mem: Memory, kdir: nat, ktab: nat, d: nat, calls: seq<UserCall>, w: nat, s: nat, e: nat)
    requires WellFormed(mem, kdir, ktab, d) && AllSensible(mem, kdir, ktab, d, calls) && SlotsAre(mem, d, map[])
    requires w < USER_TOP && s == Slot(w) && e == Entry(w)
    ensures Translate(MapUserAll(mem, kdir, ktab, d, calls), d, w) == Placed(Shown(calls, s, e), w)
  {
    var after := MapUserAll(mem, kdir, ktab, d, calls);
    UserSlot(w);
    SlotsAfter(mem, kdir, ktab, d, calls);
    TablePresent(after, d, Tables(calls), s);
    if s in Tables(calls) {
      WordsAfter(mem, kdir, ktab, d, calls, s, e);
      InFrameAligned(mem, kdir, ktab, d, calls, Tables(calls)[s], e);
      Walked(after, d, w, s, e, Tables(calls)[s], Shown(calls, s, e));
    }
  }

  /** Every address below the kernel base is where the last mapping of its page put it. */
  ghost predicate PagesRight(mem: Memory, d: nat, calls: seq<UserCall>)
    requires IsFrame(mem, d)
  {
    forall w: nat :: w < USER_TOP ==> Translate(mem, d, w) == Expected(calls, w)
  }

  lemma PageAddress(s: nat, e: nat)
    requires s < 768 && e < 1024
    ensures var w := s * 0x40_0000 + e * PAGE; w < USER_TOP && Slot(w) == s && Entry(w) == e
  {
    var w := s * 0x40_0000 + e * PAGE;
    assert w == (s * 1024 + e) * PAGE;
    assert w / PAGE == s * 1024 + e;
  }

  lemma RightIfHeld(mem: Memory, kdir: nat, ktab: nat, d: nat, calls: seq<UserCall>, w: nat)
    requires WellFormed(mem, kdir, ktab, d) && AllSensible(mem, kdir, ktab, d, calls) && SlotsAre(mem, d, map[])
    requires AllHold(calls) && w < USER_TOP
    ensures Translate(MapUserAll(mem, kdir, ktab, d, calls), d, w) == Expected(calls, w)
  {
    PageTranslates(mem, kdir, ktab, d, calls, w, Slot(w), Entry(w));
  }

  lemma HeldIfRight(mem: Memory, kdir: nat, ktab: nat, d: nat, calls: seq<UserCall>, s: nat, e: nat)
    requires WellFormed(mem, kdir, ktab, d) && AllSensible(mem, kdir, ktab, d, calls) && SlotsAre(mem, d, map[])
    requires PagesRight(MapUserAll(mem, kdir, ktab, d, calls), d, calls) && e < 1024
    ensures Shown(calls, s, e) == Last(calls, s, e)
  {
    if s in Tables(calls) {
      var w := s * 0x40_0000 + e * PAGE;
      TableFrames(mem, kdir, ktab, d, calls, s);
      PageAddress(s, e);
      PageTranslates(mem, kdir, ktab, d, calls, w, s, e);
      PlacedDiffers(Shown(calls, s, e), Last(calls, s, e), w);
    } else {
      UnusedSlot(calls, s, e);
    }
  }

  /** From an empty user half, any calls of map_user_page leave every page where its last mapping put it, exactly when
      the slots that share a table ask for the same. */
  lemma LastMappingWins(mem: Memory, kdir: nat, ktab: nat, d: nat, calls: seq<UserCall>)
    requires WellFormed(mem, kdir, ktab, d) && AllSensible(mem, kdir, ktab, d, calls) && SlotsAre(mem, d, map[])
    ensures PagesRight(MapUserAll(mem, kdir, ktab, d, calls), d, calls) <==> Alike(calls)
  {
    TablesRight(calls);
    var after := MapUserAll(mem, kdir, ktab, d, calls);
    if AllHold(calls) {
      forall w: nat | w < USER_TOP
        ensures Translate(after, d, w) == Expected(calls, w)
      {
        RightIfHeld(mem, kdir, ktab, d, calls, w);
      }
    }
    if PagesRight(after, d, calls) {
      forall s, e: nat | e < 1024
        ensures Shown(calls, s, e) == Last(calls, s, e)
      {
        HeldIfRight(mem, kdir, ktab, d, calls, s, e);
      }
    }
  }

  // ----- The kernel half

  lemma {:induction false} KernelHalfStays(mem: Memory, kdir: nat, ktab: nat, d: nat, calls: seq<UserCall>)
    requires WellFormed(mem, kdir, ktab, d) && AllSensible(mem, kdir, ktab, d, calls)
    requires KernelHalfCopied(mem, kdir, d) && Present(mem[kdir][Slot(WORKBENCH)])
    ensures var after := MapUserAll(mem, kdir, ktab, d, calls);
            KernelHalfCopied(after, kdir, d) && after[kdir] == mem[kdir]
    decreases |calls|
  {
    if calls != [] {
      var c := calls[|calls| - 1];
      KernelHalfStays(mem, kdir, ktab, d, calls[..|calls| - 1]);
      assert Sensible(mem, kdir, ktab, d, c);
      UserSlot(c.v);
      OneCall(MapUserAll(mem, kdir, ktab, d, calls[..|calls| - 1]), kdir, ktab, d, c);
    }
  }

  lemma NewDirectoryStarts(mem: Memory, kdir: nat, ktab: nat, d: nat)
    requires Shared(mem, kdir, ktab) && IsFrame(mem, d) && d != kdir && d != ktab
    ensures var made := NewDirectoryIn(mem, kdir, ktab, d);
            && WellFormed(made, kdir, ktab, d) && SlotsAre(made, d, map[])
            && KernelHalfCopied(made, kdir, d) && Present(made[kdir][Slot(WORKBENCH)])
  {
    NewDirectory(mem, kdir, ktab, d);
    EntryFields(ktab, 3);
    assert Slot(WORKBENCH) == Slot(DIR_WORKBENCH);
  }

  /** A new directory through any calls of map_user_page: every page below the kernel base is where its last mapping
      put it exactly when the slots that share a table ask for the same, and the kernel half stays shared. */
  lemma NewDirectoryMaps(mem: Memory, kdir: nat, ktab: nat, d: nat, calls: seq<UserCall>)
    requires Shared(mem, kdir, ktab) && IsFrame(mem, d) && d != kdir && d != ktab
    requires AllSensible(NewDirectoryIn(mem, kdir, ktab, d), kdir, ktab, d, calls)
    ensures var made := NewDirectoryIn(mem, kdir, ktab, d);
            && WellFormed(made, kdir, ktab, d)
            && (PagesRight(MapUserAll(made, kdir, ktab, d, calls), d, calls) <==> Alike(calls))
            && SameKernelHalf(MapUserAll(made, kdir, ktab, d, calls), kdir, d)
  {
    var made := NewDirectoryIn(mem, kdir, ktab, d);
    NewDirectoryStarts(mem, kdir, ktab, d);
    LastMappingWins(made, kdir, ktab, d, calls);
    KernelHalfStays(made, kdir, ktab, d, calls);
    CopiedHalfTranslates(MapUserAll(made, kdir, ktab, d, calls), kdir, d);
  }

  // ----- How many slots may be used

  /** Frames that were handed out are different. */
  ghost predicate OwnTables(tables: map<nat, nat>) {
    forall s, s' :: s in tables && s' in tables && tables[s] == tables[s'] != 0 ==> s == s'
  }

  ghost predicate OneStarved(tables: map<nat, nat>) {
    forall s, s' :: s in tables && s' in tables && tables[s] == tables[s'] == 0 ==> s == s'
  }

  /** With so many frames at the start and so many left, which slots had to do without one. */
  ghost predicate Budget(tables: map<nat, nat>, had: nat, left: nat) {
    || (0 !in tables.Values && |tables| + left == had)
    || (left == 0 && OneStarved(tables) && |tables| == had + 1)
    || (left == 0 && |tables| > had + 1)
  }

  lemma BudgetStep(tables: map<nat, nat>, had: nat, left: nat, s: nat, got: nat)
    requires Budget(tables, had, left) && s !in tables && (got == 0 <==> left == 0)
    ensures Budget(tables[s := got], had, if left == 0 then 0 else left - 1)
  {
    assert tables[s := got].Keys == tables.Keys + {s};
    assert |tables[s := got]| == |tables| + 1;
  }

  /** At most one slot opened after the frames ran out: nothing is lost. */
  lemma EnoughFrames(calls: seq<UserCall>, had: nat, left: nat)
    requires Budget(Tables(calls), had, left) && OwnTables(Tables(calls)) && |Tables(calls)| <= had + 1
    ensures Alike(calls)
  {
  }

  /** Every table is frame 0 or a frame of its own that was handed out. */
  ghost predicate TablesFrom(tables: map<nat, nat>, owned: set<nat>) {
    OwnTables(tables) && forall s :: s in tables ==> tables[s] == 0 || tables[s] in owned
  }

  // ----- The C code

  /** Memory after the given calls on directory d, which started as base and is still on its workbench. */
  ghost predicate Follows(base: Memory, kdir: nat, ktab: nat, d: nat, took: seq<UserCall>, mem: Memory) {
    && WellFormed(base, kdir, ktab, d) && SlotsAre(base, d, map[]) && AllSensible(base, kdir, ktab, d, took)
    && mem == MapUserAll(base, kdir, ktab, d, took) && PageAt(mem, kdir, ktab, DIR_WORKBENCH, d)
  }

  /** The frames they took, of those there were at the start. */
  ghost predicate Supplied(tables: map<nat, nat>, ram: set<nat>, free: set<nat>, had: nat) {
    TablesFrom(tables, ram - free) && Budget(tables, had, |free|)
  }

  ghost predicate Reached(pager: Pager, base: Memory, d: nat, took: seq<UserCall>, had: nat)
    reads pager, pager.frames, pager.frames.bitmap
  {
    && pager.Ready() && d in pager.Owned() && AllFrames(base)
    && Follows(base, pager.kdir, pager.ktab, d, took, pager.mem)
    && Supplied(Tables(took), pager.frames.ram, pager.frames.Free(), had)
  }

  /** A page of the kernel's that does not use the workbench's table entry stays where it is. */
  lemma TargetStays(mem: Memory, kdir: nat, ktab: nat, d: nat, t: nat, v: nat, p: nat, w: nat)
    requires WellFormed(mem, kdir, ktab, d) && IsFrame(mem, t) && v < USER_TOP && t != d && t != kdir && t != ktab
    requires PageAt(mem, kdir, ktab, w, d) && Entry(WORKBENCH) != Entry(w)
    ensures PageAt(MapUserIn(mem, kdir, ktab, d, t, v, p), kdir, ktab, w, d)
  {
    MapUserWellFormed(mem, kdir, ktab, d, t, v, p);
    OtherPageKept(mem, kdir, ktab, WORKBENCH, t, w, d);
    KernelTablesKept(mem, kdir, ktab, d, t, v, p);
  }

  lemma EntriesDiffer()
    ensures Entry(WORKBENCH) != Entry(DIR_WORKBENCH)
  {
  }

  /** One more call, with table frame t. */
  lemma FollowsOn(base: Memory, kdir: nat, ktab: nat, d: nat, took: seq<UserCall>, mem: Memory, u: UserCall)
    requires Follows(base, kdir, ktab, d, took, mem) && Sensible(base, kdir, ktab, d, u)
    requires WellFormed(mem, kdir, ktab, d)
    requires Slot(u.v) in Tables(took) ==> u.got == Tables(took)[Slot(u.v)]
    ensures IsFrame(mem, u.got)
    ensures Follows(base, kdir, ktab, d, took + [u], MapUserIn(mem, kdir, ktab, d, u.got, u.v, u.p))
    ensures Tables(took + [u]) == Tables(took)[Slot(u.v) := u.got]
  {
    assert (took + [u])[..|took + [u]| - 1] == took;
    assert SameFrames(base, mem);
    SlotsAfter(base, kdir, ktab, d, took);
    SlotsStep(mem, kdir, ktab, d, Tables(took), u);
    EntriesDiffer();
    TargetStays(mem, kdir, ktab, d, u.got, u.v, u.p, DIR_WORKBENCH);
    assert Slot(u.v) in Tables(took) ==> Tables(took)[Slot(u.v) := u.got] == Tables(took);
  }

  /** Where the call's table frame comes from. */
  ghost predicate Drawn(tables: map<nat, nat>, free: set<nat>, s: nat, t: nat, free': set<nat>) {
    if s in tables then t == tables[s] && free' == free
    else if free == {} then t == 0 && free' == {}
    else t in free && free' == free - {t}
  }

  lemma SupplyOn(tables: map<nat, nat>, ram: set<nat>, free: set<nat>, had: nat, s: nat, t: nat, free': set<nat>)
    requires Supplied(tables, ram, free, had) && free <= ram && 0 !in ram && Drawn(tables, free, s, t, free')
    ensures Supplied(tables[s := t], ram, free', had)
  {
    if s in tables {
      assert tables[s := t] == tables;
    } else {
      BudgetStep(tables, had, |free|, s, t);
    }
  }

  lemma DrawnSensible(base: Memory, kdir: nat, ktab: nat, d: nat, took: seq<UserCall>, mem: Memory, ram: set<nat>,
                      free: set<nat>, u: UserCall, free': set<nat>)
    requires Follows(base, kdir, ktab, d, took, mem) && AllFrames(base) && free <= ram
    requires forall f :: f in ram ==> f != 0 && f < FRAMES && f != kdir && f != ktab
    requires d in ram - free && kdir != 0 && ktab != 0 && u.v < USER_TOP && u.p % PAGE == 0
    requires Drawn(Tables(took), free, Slot(u.v), u.got, free')
    ensures Sensible(base, kdir, ktab, d, u)
  {
    if Slot(u.v) in Tables(took) {
      TableFrames(base, kdir, ktab, d, took, Slot(u.v));
    }
  }

  /** map_user_page on the directory that is on its workbench. */
  method MapNext(pager: Pager, v: nat, p: nat, ghost base: Memory, ghost d: nat, ghost took: seq<UserCall>,
                 ghost had: nat)
    returns (ghost u: UserCall)
    requires Reached(pager, base, d, took, had) && v < USER_TOP && p % PAGE == 0
    modifies pager, pager.frames.bitmap
    ensures Reached(pager, base, d, took + [u], had) && u.v == v && u.p == p
  {
    ghost var free, mem := pager.frames.Free(), pager.mem;
    ReadyToMap(base, pager.kdir, pager.ktab, d, took, mem, pager.Owned());
    ghost var t := pager.MapUserPage(DIR_WORKBENCH, v, p, d);
    u := UserCall(v, p, t);
    MappedOne(base, pager.kdir, pager.ktab, d, took, mem, pager.frames.ram, free, had, u, pager.frames.Free());
  }

  lemma ReadyToMap(base: Memory, kdir: nat, ktab: nat, d: nat, took: seq<UserCall>, mem: Memory, owned: set<nat>)
    requires Follows(base, kdir, ktab, d, took, mem) && TablesFrom(Tables(took), owned)
    requires forall f :: f in owned ==> f < FRAMES
    ensures WellFormed(mem, kdir, ktab, d) && Translate(mem, kdir, DIR_WORKBENCH) == Some(d * PAGE)
    ensures forall s: nat :: s < 768 && Present(mem[d][s]) ==> TableOf(mem, d, s) < FRAMES
    ensures forall s: nat :: s < 768 ==>
              if s in Tables(took) then Present(mem[d][s]) && TableOf(mem, d, s) == Tables(took)[s]
              else !Present(mem[d][s])
  {
    PageWord(mem, kdir, ktab, DIR_WORKBENCH, d, 0);
    SlotsAfter(base, kdir, ktab, d, took);
    forall s: nat | s < 768
      ensures if s in Tables(took) then Present(mem[d][s]) && TableOf(mem, d, s) == Tables(took)[s]
              else !Present(mem[d][s])
    {
      if s in Tables(took) {
        EntryFields(Tables(took)[s], 7);
      }
    }
  }

  lemma MappedOne(base: Memory, kdir: nat, ktab: nat, d: nat, took: seq<UserCall>, mem: Memory, ram: set<nat>,
                  free: set<nat>, had: nat, u: UserCall, free': set<nat>)
    requires Follows(base, kdir, ktab, d, took, mem) && AllFrames(base) && Supplied(Tables(took), ram, free, had)
    requires WellFormed(mem, kdir, ktab, d) && free <= ram
    requires forall f :: f in ram ==> f != 0 && f < FRAMES && f != kdir && f != ktab
    requires d in ram - free && kdir != 0 && ktab != 0 && u.v < USER_TOP && u.p % PAGE == 0
    requires Drawn(Tables(took), free, Slot(u.v), u.got, free')
    ensures IsFrame(mem, u.got)
    ensures Follows(base, kdir, ktab, d, took + [u], MapUserIn(mem, kdir, ktab, d, u.got, u.v, u.p))
    ensures Supplied(Tables(took + [u]), ram, free', had)
  {
    DrawnSensible(base, kdir, ktab, d, took, mem, ram, free, u, free');
    FollowsOn(base, kdir, ktab, d, took, mem, u);
    SupplyOn(Tables(took), ram, free, had, Slot(u.v), u.got, free');
  }

  lemma NewDirectoryFollows(mem: Memory, kdir: nat, ktab: nat, d: nat)
    requires Shared(mem, kdir, ktab) && IsFrame(mem, d) && d != kdir && d != ktab
    ensures var made := NewDirectoryIn(mem, kdir, ktab, d); Follows(made, kdir, ktab, d, [], made)
  {
    NewDirectoryStarts(mem, kdir, ktab, d);
    MappedPage(mem, kdir, ktab, DIR_WORKBENCH, d);
  }

  ghost predicate UserPages(calls: seq<Mapping>) {
    forall i :: 0 <= i < |calls| ==> calls[i].v < USER_TOP && calls[i].p % PAGE == 0
  }

  /** The calls that were made are those that were asked for. */
  ghost predicate Asked(calls: seq<Mapping>, took: seq<UserCall>) {
    |took| == |calls| && forall i :: 0 <= i < |calls| ==> took[i].v == calls[i].v && took[i].p == calls[i].p
  }

  /** create_user_page_directory, and then map_user_page for any pages: every page is where its last mapping put it
      exactly when the slots that share a table ask for the same, as they do when no more slots are used than frames
      were free; and the kernel half is shared. */
  method DirectoryThenUserMaps(pager: Pager, calls: seq<Mapping>) returns (address: nat, ghost took: seq<UserCall>)
    requires pager.Ready() && UserPages(calls)
    modifies pager, pager.frames.bitmap
    ensures pager.Ready() && (address == 0 <==> old(pager.frames.Free()) == {})
    ensures address != 0 ==>
              && Asked(calls, took) && IsFrame(pager.mem, pager.kdir) && IsFrame(pager.mem, address / PAGE)
              && (PagesRight(pager.mem, address / PAGE, took) <==> Alike(took))
              && (|Tables(took)| <= old(|pager.frames.Free()|) ==> Alike(took))
              && SameKernelHalf(pager.mem, pager.kdir, address / PAGE)
  {
    took := [];
    ghost var before, had := pager.mem, |pager.frames.Free()| - 1;
    address := pager.CreateUserPageDirectory();
    if address == 0 {
      return;
    }
    ghost var d, made := address / PAGE, pager.mem;
    NewDirectoryFollows(before, pager.kdir, pager.ktab, d);
    took := MapThem(pager, calls, made, d, had);
    NewDirectoryMaps(before, pager.kdir, pager.ktab, d, took);
  }

  lemma AskedOn(calls: seq<Mapping>, i: nat, took: seq<UserCall>, u: UserCall)
    requires i < |calls| && Asked(calls[..i], took) && u.v == calls[i].v && u.p == calls[i].p
    ensures Asked(calls[..i + 1], took + [u])
  {
  }

  method MapThem(pager: Pager, calls: seq<Mapping>, ghost base: Memory, ghost d: nat, ghost had: nat)
    returns (ghost took: seq<UserCall>)
    requires Reached(pager, base, d, [], had) && UserPages(calls)
    modifies pager, pager.frames.bitmap
    ensures Reached(pager, base, d, took, had) && Asked(calls, took)
    ensures |Tables(took)| <= had + 1 ==> Alike(took)
  {
    took := [];
    var i := 0;
    while i < |calls|
      invariant 0 <= i <= |calls| && Reached(pager, base, d, took, had) && Asked(calls[..i], took)
    {
      ghost var u := MapNext(pager, calls[i].v, calls[i].p, base, d, took, had);
      AskedOn(calls, i, took, u);
      took := took + [u];
      i := i + 1;
    }
    assert calls[..i] == calls;
    if |Tables(took)| <= had + 1 {
      EnoughFrames(took, had, |pager.frames.Free()|);
    }
  }
}
