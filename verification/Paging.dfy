/** paging.c: the kernel's directory and its one page table, and the user directories built beside them. */
module Paging {
  import opened PageTables
  import opened UserTables
  import opened Frames
  import opened Wrappers

  /** Physical memory has every frame the bitmap can name. */
  ghost predicate AllFrames(mem: Memory) {
    forall f: nat {:trigger f in mem} {:trigger mem[f]} :: f < FRAMES ==> f in mem && |mem[f]| == 1024
  }

  class Pager {
    const frames: FrameAllocator
    /** The frames that hold page_directory and first_page_table, inside the kernel image. */
    const kdir: nat
    const ktab: nat
    var mem: Memory

    ghost predicate Valid()
      reads this, frames, frames.bitmap
    {
      && frames.Valid()
      && kdir != ktab && kdir !in frames.ram && ktab !in frames.ram && kdir != 0 && ktab != 0
      && kdir < FRAMES && ktab < FRAMES
      && AllFrames(mem)
    }

    /** Valid, and init_paging has run: present slots share the one table. */
    ghost predicate Ready()
      reads this, frames, frames.bitmap
    {
      Valid() && Shared(mem, kdir, ktab)
    }

    ghost function View(): View
      requires Shared(mem, kdir, ktab)
      reads this
    {
      ViewOf(mem, kdir, ktab)
    }

    /** Frames handed out and not given back. */
    ghost function Owned(): set<nat>
      requires frames.bitmap.Length == BITMAP_SIZE
      reads this, frames, frames.bitmap
    {
      frames.ram - frames.Free()
    }

    constructor (frames: FrameAllocator, kdir: nat, ktab: nat, mem: Memory)
      requires frames.Valid()
      requires kdir != ktab && kdir !in frames.ram && ktab !in frames.ram && kdir != 0 && ktab != 0
      requires kdir < FRAMES && ktab < FRAMES
      requires AllFrames(mem)
      ensures Valid() && this.frames == frames && this.kdir == kdir && this.ktab == ktab && this.mem == mem
    {
      this.frames, this.kdir, this.ktab, this.mem := frames, kdir, ktab, mem;
    }

    // ----- Words of memory

    method StoreWord(frame: nat, i: nat, w: nat)
      requires IsFrame(mem, frame) && i < 1024
      modifies this
      ensures mem == SetWord(old(mem), frame, i, w)
    {
      var words: seq<nat> := mem[frame][i := w];
      mem := mem[frame := words];
    }

    /** A C store through a virtual address: the word lands where the kernel's tables send it. */
    method StoreVirtual(v: nat, w: nat, ghost frame: nat)
      requires Ready() && v < ADDRESSES && v % 4 == 0 && frame < FRAMES
      requires Translate(mem, kdir, v) == Some(frame * PAGE + v % PAGE)
      modifies this
      ensures mem == SetWord(old(mem), frame, v % PAGE / 4, w)
    {
      var pde := mem[kdir][Slot(v)];
      var pte := mem[pde / PAGE][Entry(v)];
      LeafFrame(pte, v, frame);
      StoreWord(pte / PAGE, v % PAGE / 4, w);
    }

    method LoadVirtual(v: nat, ghost frame: nat) returns (w: nat)
      requires Ready() && v < ADDRESSES && v % 4 == 0 && frame < FRAMES
      requires Translate(mem, kdir, v) == Some(frame * PAGE + v % PAGE)
      ensures w == mem[frame][v % PAGE / 4]
    {
      var pde := mem[kdir][Slot(v)];
      var pte := mem[pde / PAGE][Entry(v)];
      LeafFrame(pte, v, frame);
      w := mem[pte / PAGE][v % PAGE / 4];
    }

    // ----- map_page

    method MapPage(v: nat, p: nat)
      requires Ready() && v < ADDRESSES
      modifies this
      ensures Ready()
      ensures mem == MapKernelIn(old(mem), kdir, ktab, v, p)
      ensures View() == MapIn(old(View()), v, p)
    {
      MapKernelView(mem, kdir, ktab, v, p);
      var pdIndex := Slot(v);
      var ptIndex := Entry(v);
      if !Present(mem[kdir][pdIndex]) {
        StoreWord(kdir, pdIndex, Or3(ktab * PAGE));
      }
      StoreWord(ktab, ptIndex, Or3(p));
      assert mem == MapKernelIn(old(mem), kdir, ktab, v, p);
    }

    // ----- init_paging

    method ClearDirectory()
      requires Valid()
      modifies this
      ensures Ready() && View().slots == {}
    {
      var i := 0;
      while i < 1024
        invariant 0 <= i <= 1024 && IsFrame(mem, kdir)
        invariant mem == old(mem)[kdir := mem[kdir]]
        invariant forall s :: 0 <= s < i ==> mem[kdir][s] == 0
      {
        StoreWord(kdir, i, 0);
        i := i + 1;
      }
    }

    /** Every page of the low 4 MB onto itself, through the shared table. */
    method MapIdentity()
      requires Ready() && View().slots == {}
      modifies this
      ensures Ready() && View().slots == {0}
      ensures forall e :: 0 <= e < 1024 ==> View().table[e] == Or3(e * PAGE)
    {
      var addr := 0;
      while addr < 0x40_0000
        invariant 0 <= addr <= 0x40_0000 && addr % PAGE == 0 && Ready()
        invariant View().slots == if addr == 0 then {} else {0}
        invariant forall e :: 0 <= e < addr / PAGE ==> View().table[e] == Or3(e * PAGE)
      {
        LowAddress(addr);
        MapPage(addr, addr);
        addr := addr + 4096;
      }
    }

    method InitPaging(physStart: nat, physEnd: nat)
      requires Valid()
      requires physStart % PAGE == 0 && physEnd <= 0x40_0000
      modifies this
      ensures Ready() && View() == BootView()
      ensures forall a: nat :: a < 0x40_0000 ==>
                Translate(mem, kdir, a) == Some(a) && Translate(mem, kdir, KERNEL_BASE + a) == Some(a)
      ensures forall w: nat :: w < ADDRESSES && Slot(w) != 0 && Slot(w) != 768 ==> Translate(mem, kdir, w) == None
    {
      ClearDirectory();
      MapIdentity();
      LowAddress(VGA);
      MapPage(KERNEL_BASE + VGA, VGA);
      assert View().slots == {0, 768};
      assert View().table == BootView().table;
      var addr := physStart;
      while addr < physEnd
        invariant addr % PAGE == 0 && Ready()
        invariant View() == BootView()
        decreases physEnd - addr
      {
        LowAddress(addr);
        MapPage(addr + KERNEL_BASE, addr);
        assert View().table == BootView().table;
        addr := addr + 4096;
      }
      BootTranslates(mem, kdir, ktab);
    }

    // ----- create_user_page_directory

    /** Store the same word through a mapped page, first word to last. */
    method ClearPage(v: nat, ghost f: nat)
      requires Ready() && v % PAGE == 0 && v + PAGE <= ADDRESSES && f < FRAMES
      requires PageAt(mem, kdir, ktab, v, f) && f != kdir && f != ktab
      modifies this
      ensures Ready() && mem == old(mem)[f := Zeros()]
    {
      var i := 0;
      while i < 1024
        invariant 0 <= i <= 1024 && Ready()
        invariant mem == old(mem)[f := mem[f]]
        invariant forall s :: 0 <= s < i ==> mem[f][s] == 0
      {
        PageWord(mem, kdir, ktab, v, f, i);
        StoreVirtual(v + 4 * i, 0, f);
        i := i + 1;
      }
      assert mem[f] == Zeros();
    }

    method CopyKernelHalf(v: nat, ghost d: nat)
      requires Ready() && v % PAGE == 0 && v + PAGE <= ADDRESSES && d < FRAMES
      requires PageAt(mem, kdir, ktab, v, d) && d != kdir && d != ktab
      modifies this
      ensures Ready() && mem == old(mem)[d := old(mem)[d][..768] + old(mem)[kdir][768..]]
    {
      var i := 768;
      while i < 1024
        invariant 768 <= i <= 1024 && Ready()
        invariant mem == old(mem)[d := mem[d]]
        invariant mem[d] == old(mem)[d][..768] + old(mem)[kdir][768..i] + old(mem)[d][i..]
      {
        PageWord(mem, kdir, ktab, v, d, i);
        StoreVirtual(v + 4 * i, mem[kdir][i], d);
        i := i + 1;
      }
      assert mem[d] == old(mem)[d][..768] + old(mem)[kdir][768..];
    }

    /** 0 when no frame is left; otherwise an empty user half beside a copy of the kernel half. */
    method CreateUserPageDirectory() returns (address: nat)
      requires Ready()
      modifies this, frames.bitmap
      ensures Ready() && frames.ram == old(frames.ram)
      ensures address == 0 <==> old(frames.Free()) == {}
      ensures address == 0 ==> mem == old(mem) && frames.Free() == old(frames.Free())
      ensures address != 0 ==>
                var d := address / PAGE;
                && address == d * PAGE && d in old(frames.Free())
                && frames.Free() == old(frames.Free()) - {d}
                && mem == NewDirectoryIn(old(mem), kdir, ktab, d)
                && View() == MapIn(old(View()), DIR_WORKBENCH, address)
                && Separate(mem, kdir, ktab, d, Owned())
                && SameKernelHalf(mem, kdir, d)
                && (forall w: nat :: w < USER_TOP ==> Translate(mem, d, w) == None)
    {
      address := frames.AllocateFrame();
      if address == 0 { return 0; }
      ghost var d := address / PAGE;
      MapPage(DIR_WORKBENCH, address);
      MappedPage(old(mem), kdir, ktab, DIR_WORKBENCH, d);
      ClearPage(DIR_WORKBENCH, d);
      CopyKernelHalf(DIR_WORKBENCH, d);
      assert Zeros()[..768] == seq(768, i => 0);
      assert mem == NewDirectoryIn(old(mem), kdir, ktab, d);
      NewDirectory(old(mem), kdir, ktab, d);
    }

    // ----- map_user_page

    /** The kernel's page at 0xC0600000 becomes the given frame. */
    method PutOnWorkbench(table: nat, ghost t: nat)
      requires Ready() && t < FRAMES && table == t * PAGE && t != kdir && t != ktab
      modifies this
      ensures Ready() && mem == MapKernelIn(old(mem), kdir, ktab, WORKBENCH, table)
      ensures PageAt(mem, kdir, ktab, WORKBENCH, t)
    {
      MapPage(WORKBENCH, table);
      MappedPage(old(mem), kdir, ktab, WORKBENCH, t);
    }

    /** A fresh zeroed table frame on the workbench, linked into the slot of v. */
    method LinkNewTable(target: nat, v: nat, ghost d: nat) returns (ghost t: nat)
      requires Ready() && d < FRAMES && WellFormed(mem, kdir, ktab, d) && d in Owned()
      requires target % PAGE == 0 && target + PAGE <= ADDRESSES && Entry(target) != Entry(WORKBENCH)
      requires PageAt(mem, kdir, ktab, target, d)
      requires v < USER_TOP && !Present(mem[d][Slot(v)])
      modifies this, frames.bitmap
      ensures Ready() && frames.ram == old(frames.ram)
      ensures t < FRAMES && t != d && t != kdir && t != ktab
      ensures if old(frames.Free()) == {} then t == 0 && frames.Free() == {}
              else t in old(frames.Free()) && frames.Free() == old(frames.Free()) - {t}
      ensures mem == LinkedIn(old(mem), kdir, ktab, d, t, v)
    {
      UserSlot(v);
      var table := frames.AllocateFrame();
      t := table / PAGE;
      assert table == t * PAGE && t != d && t != kdir && t != ktab;
      PutOnWorkbench(table, t);
      OtherPageKept(old(mem), kdir, ktab, WORKBENCH, t, target, d);
      ClearPage(WORKBENCH, t);
      PageWord(mem, kdir, ktab, target, d, Slot(v));
      StoreVirtual(target + 4 * Slot(v), Or7(table), d);
      assert mem[d] == LinkedIn(old(mem), kdir, ktab, d, t, v)[d];
    }

    /** The linked table goes on the workbench and its entry for v is written. */
    method WriteEntry(target: nat, v: nat, p: nat, ghost d: nat, ghost t: nat)
      requires Ready() && d < FRAMES && t < FRAMES && v < USER_TOP
      requires target % PAGE == 0 && target + PAGE <= ADDRESSES
      requires PageAt(mem, kdir, ktab, target, d) && t != kdir && t != ktab
      requires mem[d][Slot(v)] == Or7(t * PAGE)
      modifies this
      ensures Ready()
      ensures mem == SetWord(MapKernelIn(old(mem), kdir, ktab, WORKBENCH, t * PAGE), t, Entry(v), Or7(p))
    {
      PageWord(mem, kdir, ktab, target, d, Slot(v));
      var entry := LoadVirtual(target + 4 * Slot(v), d);
      EntryFields(t, 7);
      PutOnWorkbench(entry - entry % PAGE, t);
      PageWord(mem, kdir, ktab, WORKBENCH, t, Entry(v));
      StoreVirtual(WORKBENCH + 4 * Entry(v), Or7(p), t);
    }

    method MapUserPage(target: nat, v: nat, p: nat, ghost d: nat) returns (ghost t: nat)
      requires Ready() && d < FRAMES && WellFormed(mem, kdir, ktab, d) && d in Owned()
      requires target % PAGE == 0 && target + PAGE <= ADDRESSES && Entry(target) != Entry(WORKBENCH)
      requires Translate(mem, kdir, target) == Some(d * PAGE)
      requires v < USER_TOP && p % PAGE == 0
      requires forall s: nat :: s < 768 && Present(mem[d][s]) ==> TableOf(mem, d, s) < FRAMES
      modifies this, frames.bitmap
      ensures Ready() && frames.ram == old(frames.ram)
      ensures t < FRAMES && WellFormed(mem, kdir, ktab, d)
      ensures mem == MapUserIn(old(mem), kdir, ktab, d, t, v, p)
      ensures Present(old(mem)[d][Slot(v)]) ==>
                t == TableOf(old(mem), d, Slot(v)) && frames.Free() == old(frames.Free())
      ensures !Present(old(mem)[d][Slot(v)]) && old(frames.Free()) != {} ==>
                t in old(frames.Free()) && frames.Free() == old(frames.Free()) - {t}
      ensures !Present(old(mem)[d][Slot(v)]) && old(frames.Free()) == {} ==>
                t == 0 && frames.Free() == {}
      ensures old(Separate(mem, kdir, ktab, d, Owned())) ==>
                forall w: nat :: w < USER_TOP ==>
                  Translate(mem, d, w) == if w / PAGE == v / PAGE then Some(p + w % PAGE)
                                          else old(Translate(mem, d, w))
      ensures old(Separate(mem, kdir, ktab, d, Owned())) ==>
                (Separate(mem, kdir, ktab, d, Owned())
                 <==> Present(old(mem)[d][Slot(v)]) || old(frames.Free()) != {})
    {
      UserSlot(v);
      PageOfTranslation(mem, kdir, ktab, target, d);
      PageWord(mem, kdir, ktab, target, d, Slot(v));
      var entry := LoadVirtual(target + 4 * Slot(v), d);
      ghost var got := 0;
      if !Present(entry) {
        t := LinkNewTable(target, v, d);
        got := t;
        LinkedKeeps(old(mem), kdir, ktab, d, t, v, target);
      } else {
        t := entry / PAGE;
      }
      ghost var linked := mem;
      WriteEntry(target, v, p, d, t);
      LinkedThenWritten(old(mem), linked, kdir, ktab, d, t, v, p);
      MapUserWellFormed(old(mem), kdir, ktab, d, t, v, p);
      MapUserOutcome(old(mem), kdir, ktab, d, t, v, p, old(Owned()), got);
    }
  }

  /** A directory made while the kernel half has only its first 8 MB, and any calls of map_page after that. */
  method DirectoryThenMaps(pager: Pager, calls: seq<Mapping>) returns (address: nat)
    requires pager.Ready() && AllMappable(calls)
    requires 768 in pager.View().slots && pager.View().slots <= {0, 768, 769}
    modifies pager, pager.frames.bitmap
    ensures pager.Ready() && (address == 0 <==> old(pager.frames.Free()) == {})
    ensures address != 0 ==>
              && IsFrame(pager.mem, pager.kdir) && IsFrame(pager.mem, address / PAGE)
              && (SameKernelHalf(pager.mem, pager.kdir, address / PAGE) <==> BelowEightMegabytes(calls))
  {
    ghost var before := pager.mem;
    LowFromView(before, pager.kdir, pager.ktab);
    address := pager.CreateUserPageDirectory();
    if address == 0 {
      return;
    }
    ghost var made := pager.mem;
    var i := 0;
    while i < |calls|
      invariant 0 <= i <= |calls| && pager.Ready() && Shared(made, pager.kdir, pager.ktab)
      invariant AllMappable(calls[..i]) && pager.mem == MapAll(made, pager.kdir, pager.ktab, calls[..i])
    {
      assert calls[..i + 1][..i] == calls[..i];
      pager.MapPage(calls[i].v, calls[i].p);
      i := i + 1;
    }
    assert calls[..i] == calls;
    NewDirectoryShares(before, pager.kdir, pager.ktab, address / PAGE, calls);
  }

  // ----- Mapped pages, word by word

  /** Page-aligned address v is mapped to frame f in the kernel's tables. */
  ghost predicate PageAt(mem: Memory, kdir: nat, ktab: nat, v: nat, f: nat) {
    && Shared(mem, kdir, ktab) && v < ADDRESSES
    && Present(mem[kdir][Slot(v)])
    && Present(mem[ktab][Entry(v)]) && mem[ktab][Entry(v)] / PAGE == f
  }

  lemma WordAddress(v: nat, i: nat)
    requires v % PAGE == 0 && i < 1024
    ensures Slot(v + 4 * i) == Slot(v) && Entry(v + 4 * i) == Entry(v)
    ensures (v + 4 * i) % PAGE == 4 * i && (v + 4 * i) % 4 == 0
  {
    var q := v / PAGE;
    assert v == q * PAGE && (v + 4 * i) / PAGE == q;
    assert Slot(v + 4 * i) == q / 1024 && Slot(v) == q / 1024;
  }

  lemma PageWord(mem: Memory, kdir: nat, ktab: nat, v: nat, f: nat, i: nat)
    requires PageAt(mem, kdir, ktab, v, f) && v % PAGE == 0 && v + PAGE <= ADDRESSES && i < 1024
    ensures v + 4 * i < ADDRESSES && (v + 4 * i) % 4 == 0 && (v + 4 * i) % PAGE / 4 == i
    ensures Translate(mem, kdir, v + 4 * i) == Some(f * PAGE + (v + 4 * i) % PAGE)
  {
    WordAddress(v, i);
    SharedWalk(mem, kdir, ktab, v + 4 * i);
  }

  lemma PageOfTranslation(mem: Memory, kdir: nat, ktab: nat, v: nat, f: nat)
    requires Shared(mem, kdir, ktab) && v < ADDRESSES && v % PAGE == 0
    requires Translate(mem, kdir, v) == Some(f * PAGE)
    ensures PageAt(mem, kdir, ktab, v, f)
  {
    SharedWalk(mem, kdir, ktab, v);
  }

  lemma MappedPage(mem: Memory, kdir: nat, ktab: nat, v: nat, f: nat)
    requires Shared(mem, kdir, ktab) && v < ADDRESSES
    ensures PageAt(MapKernelIn(mem, kdir, ktab, v, f * PAGE), kdir, ktab, v, f)
  {
    MapKernelView(mem, kdir, ktab, v, f * PAGE);
    EntryFields(f, 3);
    EntryFields(ktab, 3);
  }

  lemma OtherPageKept(mem: Memory, kdir: nat, ktab: nat, v: nat, f: nat, w: nat, g: nat)
    requires PageAt(mem, kdir, ktab, w, g) && v < ADDRESSES && Entry(v) != Entry(w)
    ensures PageAt(MapKernelIn(mem, kdir, ktab, v, f * PAGE), kdir, ktab, w, g)
  {
    MapKernelView(mem, kdir, ktab, v, f * PAGE);
    EntryFields(ktab, 3);
  }

  lemma LeafFrame(pte: nat, v: nat, frame: nat)
    requires Leaf(pte, v) == Some(frame * PAGE + v % PAGE)
    ensures pte / PAGE == frame
  {
  }

  lemma BootTranslates(mem: Memory, kdir: nat, ktab: nat)
    requires Shared(mem, kdir, ktab) && ViewOf(mem, kdir, ktab) == BootView()
    ensures forall a: nat :: a < 0x40_0000 ==>
              Translate(mem, kdir, a) == Some(a) && Translate(mem, kdir, KERNEL_BASE + a) == Some(a)
    ensures forall w: nat :: w < ADDRESSES && Slot(w) != 0 && Slot(w) != 768 ==> Translate(mem, kdir, w) == None
  {
    forall a: nat | a < 0x40_0000
      ensures Translate(mem, kdir, a) == Some(a) && Translate(mem, kdir, KERNEL_BASE + a) == Some(a)
    {
      LowAddress(a);
      BootEntry(a);
      SharedWalk(mem, kdir, ktab, a);
      SharedWalk(mem, kdir, ktab, KERNEL_BASE + a);
    }
    forall w: nat | w < ADDRESSES && Slot(w) != 0 && Slot(w) != 768
      ensures Translate(mem, kdir, w) == None
    {
      SharedWalk(mem, kdir, ktab, w);
    }
  }

  // ----- The two halves of map_user_page

  /** Memory after a zeroed frame t has been linked into the slot of v. */
  ghost function LinkedIn(mem: Memory, kdir: nat, ktab: nat, d: nat, t: nat, v: nat): Memory
    requires WellFormed(mem, kdir, ktab, d) && v < USER_TOP
  {
    var directory: seq<nat> := mem[d][Slot(v) := Or7(t * PAGE)];
    MapKernelIn(mem, kdir, ktab, WORKBENCH, t * PAGE)[t := Zeros()][d := directory]
  }

  lemma LinkedKeeps(mem: Memory, kdir: nat, ktab: nat, d: nat, t: nat, v: nat, target: nat)
    requires WellFormed(mem, kdir, ktab, d) && v < USER_TOP && IsFrame(mem, t)
    requires t != d && t != kdir && t != ktab
    requires PageAt(mem, kdir, ktab, target, d) && Entry(target) != Entry(WORKBENCH)
    ensures PageAt(LinkedIn(mem, kdir, ktab, d, t, v), kdir, ktab, target, d)
    ensures LinkedIn(mem, kdir, ktab, d, t, v)[d][Slot(v)] == Or7(t * PAGE)
  {
    OtherPageKept(mem, kdir, ktab, WORKBENCH, t, target, d);
  }

  lemma LinkedThenWritten(mem: Memory, linked: Memory, kdir: nat, ktab: nat, d: nat, t: nat, v: nat, p: nat)
    requires WellFormed(mem, kdir, ktab, d) && IsFrame(mem, t) && v < USER_TOP
    requires t != d && t != kdir && t != ktab
    requires if Present(mem[d][Slot(v)]) then linked == mem && mem[d][Slot(v)] == Or7(t * PAGE)
             else linked == LinkedIn(mem, kdir, ktab, d, t, v)
    requires Shared(linked, kdir, ktab)
    ensures var after := MapKernelIn(linked, kdir, ktab, WORKBENCH, t * PAGE);
            IsFrame(after, t) && SetWord(after, t, Entry(v), Or7(p)) == MapUserIn(mem, kdir, ktab, d, t, v, p)
  {
    EntryFields(ktab, 3);
    var after := MapKernelIn(linked, kdir, ktab, WORKBENCH, t * PAGE);
    var written := SetWord(after, t, Entry(v), Or7(p));
    var result := MapUserIn(mem, kdir, ktab, d, t, v, p);
    assert written.Keys == result.Keys;
    assert written[kdir] == result[kdir];
    assert written[ktab] == result[ktab];
    assert written[d] == result[d];
    assert written[t] == result[t];
  }
}
