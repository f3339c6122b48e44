/** User directories as values: two-level tables that refine a flat map from page to frame. */
module UserTables {
  import opened PageTables
  import opened Wrappers

  const WORKBENCH := 0xC060_0000
  const DIR_WORKBENCH := 0xC050_0000
  const USER_TOP := 0xC000_0000

  ghost function Zeros(): seq<nat> { seq(1024, i => 0) }

  /** The table frame behind a slot of directory d. */
  ghost function TableOf(mem: Memory, d: nat, s: nat): nat
    requires IsFrame(mem, d) && s < 1024
  {
    mem[d][s] / PAGE
  }

  /** Directory frame d is usable beside the kernel's tables: its user slots point at table frames. */
  ghost predicate WellFormed(mem: Memory, kdir: nat, ktab: nat, d: nat) {
    && Shared(mem, kdir, ktab)
    && IsFrame(mem, d) && d != kdir && d != ktab
    && forall s: nat :: s < 768 && Present(mem[d][s]) ==>
         var t := TableOf(mem, d, s);
         && mem[d][s] == Or7(t * PAGE)
         && IsFrame(mem, t) && t != d && t != kdir && t != ktab
  }

  /** Well-formed, with a table frame of its own, taken from the owned frames, behind every slot. */
  ghost predicate Separate(mem: Memory, kdir: nat, ktab: nat, d: nat, owned: set<nat>) {
    && WellFormed(mem, kdir, ktab, d)
    && d in owned
    && (forall s: nat :: s < 768 && Present(mem[d][s]) ==> TableOf(mem, d, s) in owned)
    && (forall s: nat, s': nat :: s < s' < 768 && Present(mem[d][s]) && Present(mem[d][s']) ==>
          TableOf(mem, d, s) != TableOf(mem, d, s'))
  }

  /** Memory after the kernel's map_page. */
  ghost function MapKernelIn(mem: Memory, kdir: nat, ktab: nat, v: nat, p: nat): Memory
    requires Shared(mem, kdir, ktab) && v < ADDRESSES
  {
    var s := Slot(v);
    var directory: seq<nat> := if Present(mem[kdir][s]) then mem[kdir] else mem[kdir][s := Or3(ktab * PAGE)];
    mem[kdir := directory][ktab := mem[ktab][Entry(v) := Or3(p)]]
  }

  lemma MapKernelView(mem: Memory, kdir: nat, ktab: nat, v: nat, p: nat)
    requires Shared(mem, kdir, ktab) && v < ADDRESSES
    ensures var after := MapKernelIn(mem, kdir, ktab, v, p);
            && Shared(after, kdir, ktab)
            && ViewOf(after, kdir, ktab) == MapIn(ViewOf(mem, kdir, ktab), v, p)
  {
    EntryFields(ktab, 3);
    var after := MapKernelIn(mem, kdir, ktab, v, p);
    assert forall s: nat :: s < 1024 && s != Slot(v) ==> after[kdir][s] == mem[kdir][s];
  }

  /** Memory after page v of directory d is mapped to address p through table frame t. */
  ghost function MapUserIn(mem: Memory, kdir: nat, ktab: nat, d: nat, t: nat, v: nat, p: nat): Memory
    requires WellFormed(mem, kdir, ktab, d) && IsFrame(mem, t) && v < USER_TOP
  {
    var table := if Present(mem[d][Slot(v)]) then mem[t] else Zeros();
    var directory: seq<nat> := mem[d][Slot(v) := Or7(t * PAGE)];
    var written: seq<nat> := table[Entry(v) := Or7(p)];
    MapKernelIn(mem, kdir, ktab, WORKBENCH, t * PAGE)[d := directory][t := written]
  }

  /** The frame map_user_page writes to: the slot's own table, or else the frame just allocated. */
  ghost predicate TableChosen(mem: Memory, d: nat, v: nat, t: nat, got: nat)
    requires IsFrame(mem, d) && v < USER_TOP
  {
    t == if Present(mem[d][Slot(v)]) then TableOf(mem, d, Slot(v)) else got
  }

  lemma UserSlot(v: nat)
    requires v < USER_TOP
    ensures Slot(v) < 768
  {
  }

  lemma SamePage(v: nat, w: nat)
    ensures v / PAGE == w / PAGE <==> Slot(v) == Slot(w) && Entry(v) == Entry(w)
  {
    SlotOfPage(v);
    SlotOfPage(w);
  }

  lemma SlotOfPage(v: nat)
    ensures v / PAGE == 1024 * Slot(v) + Entry(v)
  {
    var q := v / PAGE;
    assert v == q * PAGE + v % PAGE;
    assert Slot(v) == q / 1024;
  }

  lemma MapUserWellFormed(mem: Memory, kdir: nat, ktab: nat, d: nat, t: nat, v: nat, p: nat)
    requires WellFormed(mem, kdir, ktab, d) && IsFrame(mem, t) && v < USER_TOP
    requires t != d && t != kdir && t != ktab
    ensures WellFormed(MapUserIn(mem, kdir, ktab, d, t, v, p), kdir, ktab, d)
  {
    EntryFields(t, 7);
  }

  /** One page moves; every other user page keeps its translation, mapped or not. */
  lemma MapUserRefines(mem: Memory, kdir: nat, ktab: nat, d: nat, t: nat, v: nat, p: nat, w: nat)
    requires WellFormed(mem, kdir, ktab, d) && IsFrame(mem, t) && v < USER_TOP && w < USER_TOP
    requires t != d && t != kdir && t != ktab
    requires p % PAGE == 0
    requires forall s: nat :: s < 768 && s != Slot(v) && Present(mem[d][s]) ==> TableOf(mem, d, s) != t
    requires Present(mem[d][Slot(v)]) ==> TableOf(mem, d, Slot(v)) == t
    ensures Translate(MapUserIn(mem, kdir, ktab, d, t, v, p), d, w) ==
            if w / PAGE == v / PAGE then Some(p + w % PAGE) else Translate(mem, d, w)
  {
    UserSlot(v);
    UserSlot(w);
    SamePage(v, w);
    EntryFields(t, 7);
    FlagsKeepFrame(p);
  }

  /** Separation survives exactly when the slot had a table or a frame was left to allocate. */
  lemma MapUserSeparate(mem: Memory, kdir: nat, ktab: nat, d: nat, t: nat, v: nat, p: nat,
                        owned: set<nat>, got: nat)
    requires Separate(mem, kdir, ktab, d, owned) && v < USER_TOP
    requires kdir !in owned && ktab !in owned && 0 !in owned && got !in owned
    requires got != kdir && got != ktab && IsFrame(mem, got)
    requires TableChosen(mem, d, v, t, got)
    ensures IsFrame(mem, t) && t != d && t != kdir && t != ktab
    ensures Separate(MapUserIn(mem, kdir, ktab, d, t, v, p), kdir, ktab, d,
                     if got == 0 || Present(mem[d][Slot(v)]) then owned else owned + {got})
            <==> Present(mem[d][Slot(v)]) || got != 0
  {
    UserSlot(v);
    MapUserWellFormed(mem, kdir, ktab, d, t, v, p);
    EntryFields(t, 7);
    var after := MapUserIn(mem, kdir, ktab, d, t, v, p);
    assert TableOf(after, d, Slot(v)) == t && Present(after[d][Slot(v)]);
    assert forall s: nat :: s < 1024 && s != Slot(v) ==> after[d][s] == mem[d][s];
  }

  lemma MapUserOutcome(mem: Memory, kdir: nat, ktab: nat, d: nat, t: nat, v: nat, p: nat,
                       owned: set<nat>, got: nat)
    requires WellFormed(mem, kdir, ktab, d) && v < USER_TOP && p % PAGE == 0
    requires kdir !in owned && ktab !in owned && 0 !in owned && got !in owned
    requires got != kdir && got != ktab && IsFrame(mem, got) && IsFrame(mem, t)
    requires TableChosen(mem, d, v, t, got)
    ensures Separate(mem, kdir, ktab, d, owned) ==>
              && t != d && t != kdir && t != ktab
              && IsFrame(MapUserIn(mem, kdir, ktab, d, t, v, p), d)
              && (forall w: nat :: w < USER_TOP ==>
                    Translate(MapUserIn(mem, kdir, ktab, d, t, v, p), d, w) ==
                    if w / PAGE == v / PAGE then Some(p + w % PAGE) else Translate(mem, d, w))
              && (Separate(MapUserIn(mem, kdir, ktab, d, t, v, p), kdir, ktab, d,
                           if got == 0 || Present(mem[d][Slot(v)]) then owned else owned + {got})
                  <==> Present(mem[d][Slot(v)]) || got != 0)
  {
    if Separate(mem, kdir, ktab, d, owned) {
      UserSlot(v);
      MapUserSeparate(mem, kdir, ktab, d, t, v, p, owned, got);
      forall w: nat | w < USER_TOP
        ensures Translate(MapUserIn(mem, kdir, ktab, d, t, v, p), d, w) ==
                if w / PAGE == v / PAGE then Some(p + w % PAGE) else Translate(mem, d, w)
      {
        MapUserRefines(mem, kdir, ktab, d, t, v, p, w);
      }
    }
  }

  /** Once frames have run out, opening a second new slot wipes the page mapped by the first. */
  lemma ExhaustedMappingIsLost(mem: Memory, kdir: nat, ktab: nat, d: nat, v: nat, p: nat, v': nat, p': nat)
    requires WellFormed(mem, kdir, ktab, d) && IsFrame(mem, 0) && v < USER_TOP && v' < USER_TOP
    requires d != 0 && kdir != 0 && ktab != 0 && p % PAGE == 0
    requires !Present(mem[d][Slot(v)]) && !Present(mem[d][Slot(v')]) && Slot(v) != Slot(v')
    requires forall s: nat :: s < 768 && Present(mem[d][s]) ==> TableOf(mem, d, s) != 0
    requires Entry(v) != Entry(v')
    ensures var once := MapUserIn(mem, kdir, ktab, d, 0, v, p);
            && WellFormed(once, kdir, ktab, d) && IsFrame(once, 0)
            && Translate(once, d, v) == Some(p + v % PAGE)
            && IsFrame(MapUserIn(once, kdir, ktab, d, 0, v', p'), d)
            && Translate(MapUserIn(once, kdir, ktab, d, 0, v', p'), d, v) == None
  {
    UserSlot(v);
    UserSlot(v');
    MapUserWellFormed(mem, kdir, ktab, d, 0, v, p);
    MapUserRefines(mem, kdir, ktab, d, 0, v, p, v);
    var once := MapUserIn(mem, kdir, ktab, d, 0, v, p);
    assert once[d][Slot(v)] == Or7(0 * PAGE);
    EntryFields(0, 7);
  }

  // ----- The kernel half of a user directory

  ghost predicate KernelHalfCopied(mem: Memory, kdir: nat, d: nat) {
    && IsFrame(mem, kdir) && IsFrame(mem, d)
    && forall s: nat :: 768 <= s < 1024 ==> mem[d][s] == mem[kdir][s]
  }

  ghost predicate SameKernelHalf(mem: Memory, kdir: nat, d: nat)
    requires IsFrame(mem, kdir) && IsFrame(mem, d)
  {
    forall w: nat :: KERNEL_BASE <= w < ADDRESSES ==> Translate(mem, d, w) == Translate(mem, kdir, w)
  }

  lemma CopiedHalfTranslates(mem: Memory, kdir: nat, d: nat)
    requires KernelHalfCopied(mem, kdir, d)
    ensures SameKernelHalf(mem, kdir, d)
  {
    forall w: nat | KERNEL_BASE <= w < ADDRESSES
      ensures Translate(mem, d, w) == Translate(mem, kdir, w)
    {
      assert 768 <= Slot(w) < 1024;
    }
  }

  /** Memory after frame d has become a new user directory. */
  ghost function NewDirectoryIn(mem: Memory, kdir: nat, ktab: nat, d: nat): Memory
    requires Shared(mem, kdir, ktab) && IsFrame(mem, d)
  {
    var mapped := MapKernelIn(mem, kdir, ktab, DIR_WORKBENCH, d * PAGE);
    mapped[d := Zeros()[..768] + mapped[kdir][768..]]
  }

  /** The new directory: nothing below the kernel base, the kernel's own translations above it. */
  lemma NewDirectory(mem: Memory, kdir: nat, ktab: nat, d: nat)
    requires Shared(mem, kdir, ktab) && IsFrame(mem, d) && d != kdir && d != ktab
    ensures var after := NewDirectoryIn(mem, kdir, ktab, d);
            && Shared(after, kdir, ktab)
            && ViewOf(after, kdir, ktab) == MapIn(ViewOf(mem, kdir, ktab), DIR_WORKBENCH, d * PAGE)
            && KernelHalfCopied(after, kdir, d) && SameKernelHalf(after, kdir, d)
            && WellFormed(after, kdir, ktab, d)
            && (forall s: nat :: s < 768 ==> !Present(after[d][s]))
            && (forall w: nat :: w < USER_TOP ==> Translate(after, d, w) == None)
  {
    MapKernelView(mem, kdir, ktab, DIR_WORKBENCH, d * PAGE);
    var after := NewDirectoryIn(mem, kdir, ktab, d);
    CopiedHalfTranslates(after, kdir, d);
    forall w: nat | w < USER_TOP
      ensures Translate(after, d, w) == None
    {
      UserSlot(w);
    }
  }

  /** Building a directory takes over the table entry of the kernel's first page: wherever the kernel half is
      present, 0xC0100000 reaches the new directory from then on, and the other kernel pages stay. */
  lemma DirectoryWorkbenchHidesKernel(mem: Memory, kdir: nat, ktab: nat, d: nat, a: nat)
    requires Shared(mem, kdir, ktab) && IsFrame(mem, d) && d != kdir && d != ktab
    requires 768 in ViewOf(mem, kdir, ktab).slots && 0x10_0000 <= a < 0x40_0000
    ensures var after := NewDirectoryIn(mem, kdir, ktab, d);
            && IsFrame(after, kdir) && IsFrame(mem, kdir)
            && Translate(after, kdir, KERNEL_BASE + a) ==
               if a < 0x10_1000 then Some(d * PAGE + a % PAGE) else Translate(mem, kdir, KERNEL_BASE + a)
  {
    var view, w := ViewOf(mem, kdir, ktab), KERNEL_BASE + a;
    NewDirectory(mem, kdir, ktab, d);
    SharedWalk(mem, kdir, ktab, w);
    SharedWalk(NewDirectoryIn(mem, kdir, ktab, d), kdir, ktab, w);
    MapMoves(view, DIR_WORKBENCH, d * PAGE, w);
    LowAddress(a);
  }

  lemma KernelTablesKept(mem: Memory, kdir: nat, ktab: nat, d: nat, t: nat, v: nat, p: nat)
    requires WellFormed(mem, kdir, ktab, d) && IsFrame(mem, t) && v < USER_TOP && t != d && t != kdir && t != ktab
    ensures var after := MapUserIn(mem, kdir, ktab, d, t, v, p);
            var mapped := MapKernelIn(mem, kdir, ktab, WORKBENCH, t * PAGE);
            after[kdir] == mapped[kdir] && after[ktab] == mapped[ktab]
  {
  }

  /** In the kernel's view a call of map_user_page is one mapping of the workbench. */
  lemma MapUserView(mem: Memory, kdir: nat, ktab: nat, d: nat, t: nat, v: nat, p: nat)
    requires WellFormed(mem, kdir, ktab, d) && IsFrame(mem, t) && v < USER_TOP && t != d && t != kdir && t != ktab
    ensures var after := MapUserIn(mem, kdir, ktab, d, t, v, p);
            Shared(after, kdir, ktab)
            && ViewOf(after, kdir, ktab) == MapIn(ViewOf(mem, kdir, ktab), WORKBENCH, t * PAGE)
  {
    MapUserWellFormed(mem, kdir, ktab, d, t, v, p);
    KernelTablesKept(mem, kdir, ktab, d, t, v, p);
    MapKernelView(mem, kdir, ktab, WORKBENCH, t * PAGE);
  }

  lemma WorkbenchMoves(view: View, t: nat, a: nat)
    requires |view.table| == 1024 && 768 in view.slots && 0x10_0000 <= a < 0x40_0000
    ensures Resolve(MapIn(view, WORKBENCH, t * PAGE), KERNEL_BASE + a) ==
            if 0x20_0000 <= a < 0x20_1000 then Some(t * PAGE + a % PAGE) else Resolve(view, KERNEL_BASE + a)
  {
    LowAddress(a);
    WorkbenchEntry(a);
    MapMoves(view, WORKBENCH, t * PAGE, KERNEL_BASE + a);
  }

  lemma WorkbenchEntry(a: nat)
    requires 0x10_0000 <= a < 0x40_0000
    ensures Entry(WORKBENCH) == a / PAGE <==> 0x20_0000 <= a < 0x20_1000
    ensures Slot(WORKBENCH) != 768
  {
  }

  /** So does every call of map_user_page with the page at 0xC0200000, which reaches the table frame from then on. */
  lemma TableWorkbenchHidesKernel(mem: Memory, kdir: nat, ktab: nat, d: nat, t: nat, v: nat, p: nat, a: nat)
    requires WellFormed(mem, kdir, ktab, d) && IsFrame(mem, t) && v < USER_TOP && t != d && t != kdir && t != ktab
    requires 768 in ViewOf(mem, kdir, ktab).slots && 0x10_0000 <= a < 0x40_0000
    ensures var after := MapUserIn(mem, kdir, ktab, d, t, v, p);
            && Shared(after, kdir, ktab)
            && Translate(after, kdir, KERNEL_BASE + a) ==
               if 0x20_0000 <= a < 0x20_1000 then Some(t * PAGE + a % PAGE)
               else Translate(mem, kdir, KERNEL_BASE + a)
  {
    MapUserView(mem, kdir, ktab, d, t, v, p);
    WorkbenchMoves(ViewOf(mem, kdir, ktab), t, a);
    SharedWalk(mem, kdir, ktab, KERNEL_BASE + a);
    SharedWalk(MapUserIn(mem, kdir, ktab, d, t, v, p), kdir, ktab, KERNEL_BASE + a);
  }

  // ----- Later mappings

  /** One call of map_page. */
  datatype Mapping = Mapping(v: nat, p: nat)

  ghost predicate AllMappable(calls: seq<Mapping>) {
    forall i :: 0 <= i < |calls| ==> calls[i].v < ADDRESSES
  }

  /** Memory after calls of map_page, first to last. */
  ghost function MapAll(mem: Memory, kdir: nat, ktab: nat, calls: seq<Mapping>): (r: Memory)
    requires Shared(mem, kdir, ktab) && AllMappable(calls)
    ensures Shared(r, kdir, ktab)
    decreases |calls|
  {
    if calls == [] then mem
    else
      var before, c := MapAll(mem, kdir, ktab, calls[..|calls| - 1]), calls[|calls| - 1];
      MapKernelView(before, kdir, ktab, c.v, c.p);
      MapKernelIn(before, kdir, ktab, c.v, c.p)
  }

  ghost predicate Uses(calls: seq<Mapping>, s: nat) {
    exists i :: 0 <= i < |calls| && Slot(calls[i].v) == s
  }

  /** A slot of the kernel's directory is filled by the first call that uses it, and nothing else changes it. */
  lemma {:induction false} SlotAfterAll(mem: Memory, kdir: nat, ktab: nat, calls: seq<Mapping>, s: nat)
    requires Shared(mem, kdir, ktab) && AllMappable(calls) && s < 1024
    ensures MapAll(mem, kdir, ktab, calls)[kdir][s] ==
            if Uses(calls, s) && !Present(mem[kdir][s]) then Or3(ktab * PAGE) else mem[kdir][s]
    decreases |calls|
  {
    if calls != [] {
      var last := |calls| - 1;
      SlotAfterAll(mem, kdir, ktab, calls[..last], s);
      EntryFields(ktab, 3);
      assert Uses(calls, s) <==> Uses(calls[..last], s) || Slot(calls[last].v) == s by {
        if Uses(calls[..last], s) {
          var i :| 0 <= i < last && Slot(calls[..last][i].v) == s;
          assert Slot(calls[i].v) == s;
        }
        if Uses(calls, s) && Slot(calls[last].v) != s {
          var i :| 0 <= i < |calls| && Slot(calls[i].v) == s;
          assert Slot(calls[..last][i].v) == s;
        }
      }
    }
  }

  /** Other frames are left alone, and the entry of every mapped page is present from then on. */
  lemma {:induction false} AfterAll(mem: Memory, kdir: nat, ktab: nat, calls: seq<Mapping>, d: nat)
    requires Shared(mem, kdir, ktab) && AllMappable(calls) && IsFrame(mem, d) && d != kdir && d != ktab
    ensures var after := MapAll(mem, kdir, ktab, calls);
            && IsFrame(after, d) && after[d] == mem[d]
            && forall i :: 0 <= i < |calls| ==> Present(after[ktab][Entry(calls[i].v)])
    decreases |calls|
  {
    if calls != [] {
      var last := |calls| - 1;
      AfterAll(mem, kdir, ktab, calls[..last], d);
      FlagsPresent(calls[last].p);
      var before, after := MapAll(mem, kdir, ktab, calls[..last]), MapAll(mem, kdir, ktab, calls);
      forall i | 0 <= i < |calls|
        ensures Present(after[ktab][Entry(calls[i].v)])
      {
        assert i < last ==> Present(before[ktab][Entry(calls[..last][i].v)]);
      }
    }
  }

  lemma FlagsPresent(a: nat)
    ensures Present(Or3(a))
  {
    Or3InPage(a);
  }

  /** No call uses a slot of the kernel half that the copy lacks. */
  ghost predicate OnlyCopiedSlots(mem: Memory, d: nat, calls: seq<Mapping>)
    requires IsFrame(mem, d) && AllMappable(calls)
  {
    forall i :: 0 <= i < |calls| ==> Slot(calls[i].v) < 768 || Present(mem[d][Slot(calls[i].v)])
  }

  /** A page mapped through a slot that the copy lacks is there for the kernel and missing in the copy. */
  lemma MissingInCopy(mem: Memory, kdir: nat, ktab: nat, d: nat, calls: seq<Mapping>, i: nat)
    requires Shared(mem, kdir, ktab) && KernelHalfCopied(mem, kdir, d) && d != kdir && d != ktab && AllMappable(calls)
    requires i < |calls| && Slot(calls[i].v) >= 768 && !Present(mem[d][Slot(calls[i].v)])
    ensures var after, v := MapAll(mem, kdir, ktab, calls), calls[i].v;
            && IsFrame(after, kdir) && IsFrame(after, d)
            && Translate(after, d, v) == None && Translate(after, kdir, v).Some?
  {
    var v := calls[i].v;
    AfterAll(mem, kdir, ktab, calls, d);
    assert Uses(calls, Slot(v));
    SlotAfterAll(mem, kdir, ktab, calls, Slot(v));
    EntryFields(ktab, 3);
  }

  /** After any calls of map_page the kernel half of a copied directory is still the kernel's exactly when every call
      in the kernel half used a slot that was present at the copy. */
  lemma SharingPersists(mem: Memory, kdir: nat, ktab: nat, d: nat, calls: seq<Mapping>)
    requires Shared(mem, kdir, ktab) && KernelHalfCopied(mem, kdir, d) && d != kdir && d != ktab && AllMappable(calls)
    ensures var after := MapAll(mem, kdir, ktab, calls);
            && IsFrame(after, kdir) && IsFrame(after, d)
            && (SameKernelHalf(after, kdir, d) <==> OnlyCopiedSlots(mem, d, calls))
  {
    var after := MapAll(mem, kdir, ktab, calls);
    AfterAll(mem, kdir, ktab, calls, d);
    if OnlyCopiedSlots(mem, d, calls) {
      forall s: nat | 768 <= s < 1024
        ensures after[d][s] == after[kdir][s]
      {
        SlotAfterAll(mem, kdir, ktab, calls, s);
      }
      CopiedHalfTranslates(after, kdir, d);
    } else {
      var i :| 0 <= i < |calls| && Slot(calls[i].v) >= 768 && !Present(mem[d][Slot(calls[i].v)]);
      MissingInCopy(mem, kdir, ktab, d, calls, i);
    }
  }

  /** The kernel's mapping as booted, or with the heap within its first 4 MB: slots 768 and perhaps 769. */
  ghost predicate LowKernelHalf(mem: Memory, kdir: nat) {
    IsFrame(mem, kdir) && Present(mem[kdir][768]) && forall s: nat :: 770 <= s < 1024 ==> !Present(mem[kdir][s])
  }

  lemma LowFromView(mem: Memory, kdir: nat, ktab: nat)
    requires Shared(mem, kdir, ktab)
    requires 768 in ViewOf(mem, kdir, ktab).slots && ViewOf(mem, kdir, ktab).slots <= {0, 768, 769}
    ensures LowKernelHalf(mem, kdir)
  {
    forall s: nat | 770 <= s < 1024
      ensures !Present(mem[kdir][s])
    {
      assert s !in ViewOf(mem, kdir, ktab).slots;
    }
  }

  lemma CopiedSlots(mem: Memory, kdir: nat, ktab: nat, d: nat, s: nat)
    requires Shared(mem, kdir, ktab) && IsFrame(mem, d) && d != kdir && d != ktab && LowKernelHalf(mem, kdir)
    requires 768 <= s < 1024
    ensures Present(NewDirectoryIn(mem, kdir, ktab, d)[d][s]) <==> s <= 769
  {
    EntryFields(ktab, 3);
    assert Slot(DIR_WORKBENCH) == 769;
  }

  /** Every call in the kernel half stays in its first 8 MB. */
  ghost predicate BelowEightMegabytes(calls: seq<Mapping>) {
    forall i :: 0 <= i < |calls| && KERNEL_BASE <= calls[i].v ==> calls[i].v < 0xC080_0000
  }

  lemma SlotBounds(v: nat)
    ensures KERNEL_BASE <= v <==> Slot(v) >= 768
    ensures v < 0xC080_0000 <==> Slot(v) <= 769
  {
  }

  /** A directory made then shares the kernel half through all later calls of map_page exactly when those in the
      kernel half stay below 0xC0800000. */
  lemma NewDirectoryShares(mem: Memory, kdir: nat, ktab: nat, d: nat, calls: seq<Mapping>)
    requires Shared(mem, kdir, ktab) && IsFrame(mem, d) && d != kdir && d != ktab && LowKernelHalf(mem, kdir)
    requires AllMappable(calls)
    ensures Shared(NewDirectoryIn(mem, kdir, ktab, d), kdir, ktab)
    ensures var after := MapAll(NewDirectoryIn(mem, kdir, ktab, d), kdir, ktab, calls);
            && IsFrame(after, kdir) && IsFrame(after, d)
            && (SameKernelHalf(after, kdir, d) <==> BelowEightMegabytes(calls))
  {
    NewDirectory(mem, kdir, ktab, d);
    var made := NewDirectoryIn(mem, kdir, ktab, d);
    SharingPersists(made, kdir, ktab, d, calls);
    assert OnlyCopiedSlots(made, d, calls) <==> BelowEightMegabytes(calls) by {
      forall i | 0 <= i < |calls|
        ensures (Slot(calls[i].v) < 768 || Present(made[d][Slot(calls[i].v)])) <==>
                (KERNEL_BASE <= calls[i].v ==> calls[i].v < 0xC080_0000)
      {
        SlotBounds(calls[i].v);
        if Slot(calls[i].v) >= 768 {
          CopiedSlots(mem, kdir, ktab, d, Slot(calls[i].v));
        }
      }
    }
  }
}
