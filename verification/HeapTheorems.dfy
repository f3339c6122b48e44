/** What holds of the kernel heap over whole runs of malloc and free. */
module HeapTheorems {
  import opened FreeList
  import opened PageTables
  import opened Frames
  import opened Paging
  import opened HeapState
  import opened Alloc
  import opened Wrappers

  // ----- Conservation

  /** Units in free blocks and units in live blocks make up the granted pages, 512 units each. */
  lemma Conservation(base: int, s: Snap, pages: nat)
    requires Sound(base, s, pages)
    ensures SizeSum(s.free) + |LiveUnits(s.live)| == PAGE_UNITS * s.granted
  {
    UnitsCount(s.free);
    assert |Units(s.free) + LiveUnits(s.live)| == |Units(s.free)| + |LiveUnits(s.live)|;
  }

  // ----- The list is a function of what is live

  /** Two heaps over the same pages with the same units in use have the same free list. */
  lemma ListIsCanonical(base: int, s: Snap, pages: nat, base': int, s': Snap, pages': nat)
    requires Sound(base, s, pages) && Sound(base', s', pages')
    requires s.arena == s'.arena && LiveUnits(s.live) == LiveUnits(s'.live)
    ensures s.free == s'.free
  {
    assert Units(s.free) == s.arena - LiveUnits(s.live);
    assert Units(s'.free) == s'.arena - LiveUnits(s'.live);
    Canonical(s.free, s'.free);
  }

  lemma ArenaInPages(base: int, mem: map<int, Header>, free: seq<Block>, live: map<int, int>, pages: nat)
    requires Layout(base, mem, HEAP + PAGE_UNITS * pages, free, live)
    ensures Units(free) + LiveUnits(live) <= Extent(Block(HEAP, PAGE_UNITS * pages))
  {
    var whole := Block(HEAP, PAGE_UNITS * pages);
    forall u | u in Units(free) + LiveUnits(live)
      ensures u in Extent(whole)
    {
      assert HEAP <= u < whole.End();
      assert whole.Has(u);
    }
  }

  lemma SubsetOfSameSize(a: set<int>, b: set<int>)
    requires a <= b && |a| == |b|
    ensures a == b
  {
    assert b == a + (b - a);
    assert |b| == |a| + |b - a|;
    assert b - a == {};
  }

  /** With nothing live the list is one block of all pages exactly when no growth ever failed half way. */
  lemma AllFreed(base: int, s: Snap, pages: nat)
    requires Sound(base, s, pages) && s.live == map[] && pages > 0
    ensures s.free == [Block(HEAP, PAGE_UNITS * pages)] <==> s.granted == pages
  {
    var whole := Block(HEAP, PAGE_UNITS * pages);
    assert LiveUnits(s.live) == {};
    assert Units(s.free) == s.arena;
    UnitsSingle(whole);
    ExtentSize(whole);
    if s.granted == pages {
      ArenaInPages(base, s.mem, s.free, s.live, pages);
      SubsetOfSameSize(s.arena, Extent(whole));
      Canonical(s.free, [whole]);
    }
  }

  lemma NothingLive(live: map<int, int>)
    requires live.Keys == {}
    ensures live == map[] && LiveUnits(live) == {}
  {
    assert live == map[];
  }

  // ----- Runs of calls

  /** A call of malloc with what came of it, or a call of free. */
  datatype Call =
    | Got(n: nat, r: int, cut: int, grown: seq<Block>, had: nat, used: nat)
    | Gave(bp: int)

  /** What a call does to a heap and to the number of pages it has mapped. */
  ghost predicate CallStep(s: Snap, pages: nat, c: Call, s': Snap, pages': nat) {
    match c
    case Got(n, r, cut, grown, had, used) => Outcome(s, s', n, r, cut, grown, had, used) && pages' == pages + used
    case Gave(bp) =>
      bp in s.live && s'.live == s.live - {bp} && s'.arena == s.arena && s'.granted == s.granted && pages' == pages
  }

  ghost predicate HeapRun(base: int, snaps: seq<Snap>, pages: seq<nat>, calls: seq<Call>) {
    && |snaps| == |pages| == |calls| + 1
    && (forall i {:trigger Sound(base, snaps[i], pages[i])} ::
          0 <= i < |snaps| ==> Sound(base, snaps[i], pages[i]))
    && forall i :: 0 <= i < |calls| ==> CallStepAt(snaps, pages, calls, i)
  }

  ghost predicate CallStepAt(snaps: seq<Snap>, pages: seq<nat>, calls: seq<Call>, i: int)
    requires 0 <= i < |calls| && |snaps| == |pages| == |calls| + 1
  {
    CallStep(snaps[i], pages[i], calls[i], snaps[i + 1], pages[i + 1])
  }

  /** The call failed after morecore had mapped some of its pages. */
  ghost predicate FailedHalfWay(c: Call) {
    c.Got? && c.r == 0 && c.used > 0
  }

  /** What a caller can see before the call: no block is large enough, and there are frames, but too few. */
  ghost predicate RunsShort(s: Snap, c: Call) {
    c.Got? && !HasFit(s.free, c.n) && 0 < c.had < PagesFor(c.n)
  }

  /** Just those calls fail half way. */
  lemma HalfWayExactly(s: Snap, pages: nat, c: Call, s': Snap, pages': nat)
    requires CallStep(s, pages, c, s', pages')
    ensures FailedHalfWay(c) <==> RunsShort(s, c)
    ensures FailedHalfWay(c) ==> c.used == c.had
  {
  }

  /** The pages mapped by the first k calls that then failed. */
  ghost function Lost(calls: seq<Call>, k: nat): nat
    requires k <= |calls|
  {
    if k == 0 then 0
    else Lost(calls, k - 1) + if FailedHalfWay(calls[k - 1]) then calls[k - 1].used else 0
  }

  lemma CallLost(s: Snap, pages: nat, c: Call, s': Snap, pages': nat)
    requires CallStep(s, pages, c, s', pages')
    ensures pages' - s'.granted == pages - s.granted + if FailedHalfWay(c) then c.used else 0
  {
  }

  lemma {:induction false} LostOfRun(base: int, snaps: seq<Snap>, pages: seq<nat>, calls: seq<Call>, k: nat)
    requires HeapRun(base, snaps, pages, calls) && k <= |calls|
    ensures pages[k] - snaps[k].granted == pages[0] - snaps[0].granted + Lost(calls, k)
  {
    if k > 0 {
      LostOfRun(base, snaps, pages, calls, k - 1);
      assert CallStepAt(snaps, pages, calls, k - 1);
      CallLost(snaps[k - 1], pages[k - 1], calls[k - 1], snaps[k], pages[k]);
    }
  }

  lemma {:induction false} NothingLost(calls: seq<Call>, k: nat)
    requires k <= |calls|
    ensures Lost(calls, k) == 0 <==> forall i :: 0 <= i < k ==> !FailedHalfWay(calls[i])
  {
    if k > 0 {
      NothingLost(calls, k - 1);
    }
  }

  /** A run of calls from the first one on that ends with nothing live ends with one block of all pages mapped,
      exactly when no call was made with frames left, but too few, and no block large enough. */
  lemma AllFreedAfterRun(base: int, snaps: seq<Snap>, pages: seq<nat>, calls: seq<Call>)
    requires HeapRun(base, snaps, pages, calls) && snaps[0].freep == 0
    requires snaps[|calls|].live == map[] && pages[|calls|] > 0
    ensures snaps[|calls|].free == [Block(HEAP, PAGE_UNITS * pages[|calls|])] <==>
            forall i :: 0 <= i < |calls| ==> !RunsShort(snaps[i], calls[i])
  {
    var last := |calls|;
    forall i | 0 <= i < |calls|
      ensures FailedHalfWay(calls[i]) <==> RunsShort(snaps[i], calls[i])
    {
      assert CallStepAt(snaps, pages, calls, i);
      HalfWayExactly(snaps[i], pages[i], calls[i], snaps[i + 1], pages[i + 1]);
    }
    assert Sound(base, snaps[0], pages[0]) && Sound(base, snaps[last], pages[last]);
    assert snaps[0].granted == 0 && pages[0] == 0;
    LostOfRun(base, snaps, pages, calls, last);
    NothingLost(calls, last);
    AllFreed(base, snaps[last], pages[last]);
  }

  /** malloc as a call of a run. */
  method MallocCall(h: Heap, nbytes: nat) returns (r: int, ghost c: Call)
    requires h.Valid() && h.PagesValid() && nbytes < WORD && UnitsFor(nbytes) * 8 + 4095 < WORD
    modifies h, h.pager, h.pager.frames.bitmap
    ensures h.Valid() && h.PagesValid() && Sound(h.base, h.Now(), |h.backing|)
    ensures CallStep(old(h.Now()), old(|h.backing|), c, h.Now(), |h.backing|)
    ensures c.Got? && c.n == UnitsFor(nbytes) && c.r == r && c.had == old(|h.pager.frames.Free()|)
  {
    ghost var cut, grown, added;
    r, cut, grown, added := h.Malloc(nbytes);
    c := Got(UnitsFor(nbytes), r, cut, grown, old(h.Log()).had, |added|);
  }

  /** The answer of malloc for n units in numbers: the end of the first block that is large enough from freep on, where
      the next search then starts, or the end of the fewest new pages that hold the request, or NULL. */
  ghost predicate Answers(before: Snap, had: nat, n: int, r: int, after: Snap) {
    if exists i :: 0 <= i < |before.free| && before.free[i].size >= n then
      var i := after.fpos;
      && 0 <= i < |before.free| && before.free[i].size >= n && NoneSooner(before.free, before.fpos, n, i)
      && r == before.free[i].addr + before.free[i].size - n + 1
    else
      var pages := (n + 511) / 512;
      if had < pages then r == 0
      else after.heapEnd == before.heapEnd + 512 * pages && r == after.heapEnd - n + 1
  }

  lemma OutcomeAnswers(before: Snap, after: Snap, n: nat, r: int, cut: int, grown: seq<Block>, had: nat, used: nat)
    requires Outcome(before, after, n, r, cut, grown, had, used) && 1 <= n && n * 8 + 4095 < WORD
    ensures Answers(before, had, n, r, after)
  {
    PagesForPlain(n);
    if HasFit(before.free, n) {
      FirstFitIs(before.free, before.fpos, n, after.fpos);
    }
  }

  method MallocAnswer(h: Heap, nbytes: nat) returns (r: int, ghost n: int)
    requires h.Valid() && h.PagesValid() && nbytes < WORD && UnitsFor(nbytes) * 8 + 4095 < WORD
    modifies h, h.pager, h.pager.frames.bitmap
    ensures h.Valid() && h.PagesValid() && LeastUnits(nbytes, n)
    ensures Answers(old(h.Now()), old(|h.pager.frames.Free()|), n, r, h.Now())
    ensures r != 0 ==> h.live == old(h.live)[r - 1 := n]
  {
    n := UnitsFor(nbytes);
    UnitsAreLeast(nbytes, n);
    ghost var before := h.Now();
    ghost var cut, grown, added;
    r, cut, grown, added := h.Malloc(nbytes);
    OutcomeAnswers(before, h.Now(), n, r, cut, grown, old(h.Log()).had, |added|);
  }

  /** The byte address that the first call of malloc returns: the request ends the first pages above 0xC0400000. */
  lemma FirstAnswer(base: int, before: Snap, had: nat, n: int, r: int, after: Snap)
    requires Sound(base, before, 0) && before.freep == 0 && n >= 1 && Answers(before, had, n, r, after)
    requires had >= (n + 511) / 512
    ensures 8 * r == 0xC040_0000 + 4096 * ((n + 511) / 512) - 8 * (n - 1)
  {
  }

  /** free as a call of a run. */
  method FreeCall(h: Heap, ap: int, ghost bp: int) returns (ghost c: Call)
    requires h.Valid() && h.freep != 0 && ap == bp + 1 && bp in h.live
    modifies h
    ensures h.Valid() && Sound(h.base, h.Now(), |h.backing|) && c == Gave(bp)
    ensures CallStep(old(h.Now()), old(|h.backing|), c, h.Now(), |h.backing|)
  {
    h.Free(ap, bp);
    c := Gave(bp);
  }

  // ----- Clients

  /** Taking the end of a block and putting the same units back: the list and the live blocks are as before. */
  lemma ServedThenFreed(free: seq<Block>, live: map<int, int>, i: int, n: int, cut: int, k: int)
    requires Coalesced(free) && 0 <= i < |free| && 1 <= n <= free[i].size && cut == free[i].End() - n && cut !in live
    requires Fits(Take(free, i, n), k, Block(cut, n))
    ensures Insert(Take(free, i, n), k, Block(cut, n)) == free && live[cut := n] - {cut} == live
  {
    assert Tail(free[i], n) == Block(cut, n);
    TakeThenInsert(free, i, n, k);
  }

  lemma ServedIfFits(before: Snap, after: Snap, n: nat, r: int, cut: int, grown: seq<Block>, had: nat, used: nat)
    requires Outcome(before, after, n, r, cut, grown, had, used) && HasFit(before.free, n)
    ensures r == cut + 1 && cut in after.live && ServedFromList(before, after, n, cut)
  {
  }

  /** A block that came from the list and goes straight back leaves the list as it was. */
  method MallocThenFree(h: Heap, nbytes: nat)
    requires h.Valid() && h.PagesValid() && nbytes < WORD && UnitsFor(nbytes) * 8 + 4095 < WORD
    requires HasFit(h.free, UnitsFor(nbytes))
    modifies h, h.pager, h.pager.frames.bitmap
    ensures h.Valid() && h.free == old(h.free) && h.live == old(h.live)
  {
    ghost var before, pages := h.Now(), |h.backing|;
    var r;
    ghost var cut, grown, added;
    r, cut, grown, added := h.Malloc(nbytes);
    ghost var mid := h.Now();
    ServedIfFits(before, mid, UnitsFor(nbytes), r, cut, grown, old(h.Log()).had, |added|);
    FreeAgain(h, r, cut, before, pages, UnitsFor(nbytes));
  }

  method FreeAgain(h: Heap, r: int, ghost cut: int, ghost before: Snap, ghost pages: nat, ghost n: nat)
    requires h.Valid() && h.freep != 0 && r == cut + 1 && cut in h.live && n >= 1
    requires Sound(h.base, before, pages) && ServedFromList(before, h.Now(), n, cut)
    modifies h
    ensures h.Valid() && h.free == before.free && h.live == before.live
  {
    ghost var mid := h.Now();
    h.Free(r, cut);
    ServedThenFreed(before.free, before.live, mid.fpos, n, cut, h.fpos);
  }

  /** The blocks of order, each once, are exactly the live ones. */
  ghost predicate Lists(order: seq<int>, live: map<int, int>) {
    && (forall i, j :: 0 <= i < j < |order| ==> order[i] != order[j])
    && live.Keys == set b | b in order
  }

  lemma ListsRest(order: seq<int>, live: map<int, int>)
    requires Lists(order, live) && order != []
    ensures order[0] in live && Lists(order[1..], live - {order[0]})
  {
    var first, rest := order[0], order[1..];
    assert order == [first] + rest;
    assert forall i :: 0 <= i < |rest| ==> rest[i] == order[i + 1];
    assert first !in rest;
    forall b
      ensures b in rest <==> b in live && b != first
    {
      assert b in order <==> b == first || b in rest;
    }
  }

  /** Freeing every live block, in any order, ends in a list that only the granted pages determine. */
  method FreeAll(h: Heap, order: seq<int>)
    requires h.Valid() && h.freep != 0 && Lists(order, h.live)
    modifies h
    ensures h.Valid() && h.live == map[] && Units(h.free) == h.arena
    ensures h.arena == old(h.arena) && h.granted == old(h.granted) && h.backing == old(h.backing)
    decreases |order|
  {
    if order == [] {
      NothingLive(h.live);
    } else {
      ListsRest(order, h.live);
      h.Free(order[0] + 1, order[0]);
      FreeAll(h, order[1..]);
    }
  }

  // ----- Heap growth and the rest of the kernel's mappings

  /** Since init_paging, only the heap has mapped pages. */
  ghost predicate OnlyHeapMapped(h: Heap)
    reads h, h.pager, h.pager.frames, h.pager.frames.bitmap
  {
    h.PagesValid() && h.pager.View() == MapFrames(BootView(), HEAP_ADDRESS, h.backing)
  }

  /** Every call of malloc keeps it so. */
  lemma GrowthKeepsHeapMapped(log: PageLog, added: seq<nat>, h: Heap)
    requires h.PagesSince(log, added)
    requires log.end == HEAP_ADDRESS + |log.backing| * PAGE
    requires log.view == MapFrames(BootView(), HEAP_ADDRESS, log.backing)
    ensures OnlyHeapMapped(h)
  {
    MapFramesConcat(BootView(), HEAP_ADDRESS, log.backing, added);
  }

  /** While only the heap maps pages: the heap pages have distinct frames of free RAM behind them, the screen
      is intact exactly up to 184 pages, the kernel image up to 256, and the heap itself up to 1024. */
  lemma GrowthDisturbs(h: Heap)
    requires OnlyHeapMapped(h)
    requires 256 !in h.pager.frames.ram
    ensures Distinct(h.backing) && forall f :: f in h.backing ==> f in h.pager.frames.ram && f > 256
    ensures VgaKept(h.pager.View()) <==> |h.backing| <= 184
    ensures KernelKept(h.pager.View()) <==> |h.backing| <= 256
    ensures HeapPagesKept(h.backing) <==> |h.backing| <= 1024
  {
    ScreenSurvivesGrowth(h.backing);
    KernelSurvivesGrowth(h.backing);
    HeapSurvivesGrowth(h.backing);
  }

  // ----- Heap units and physical memory

  /** Where the kernel's tables send a heap unit. */
  ghost function UnitAddress(view: View, u: int): Option<nat>
    requires |view.table| == 1024 && u >= 0
  {
    Resolve(view, 8 * u)
  }

  /** A page reaches its frame with all its bytes. */
  lemma PageBytes(frames: seq<nat>, i: nat, j: nat, off: nat)
    requires i < |frames| && PageReaches(frames, i, j) && off < PAGE
    ensures Resolve(MapFrames(BootView(), HEAP_ADDRESS, frames), HEAP_ADDRESS + i * PAGE + off)
            == Some(frames[j] * PAGE + off)
  {
    var a := HEAP_ADDRESS / PAGE + i;
    assert HEAP_ADDRESS + i * PAGE == a * PAGE;
    SlotOfOffset(a, off);
    SlotOfOffset(a, 0);
  }

  lemma SlotOfOffset(a: nat, off: nat)
    requires off < PAGE
    ensures Slot(a * PAGE + off) == a / 1024 && Entry(a * PAGE + off) == a % 1024 && (a * PAGE + off) % PAGE == off
  {
    PageOffset(a, off);
    var q, x := a / 1024, a % 1024;
    assert a * PAGE + off == q * 0x40_0000 + (x * PAGE + off) && x * PAGE + off < 0x40_0000;
  }

  lemma UnitByte(i: nat, k: nat)
    ensures 8 * (HEAP + PAGE_UNITS * i + k) == HEAP_ADDRESS + i * PAGE + 8 * k
  {
  }

  lemma UnitReaches(frames: seq<nat>, i: nat, j: nat, k: nat)
    requires i < |frames| && PageReaches(frames, i, j) && k < PAGE_UNITS
    ensures UnitAddress(MapFrames(BootView(), HEAP_ADDRESS, frames), HEAP + PAGE_UNITS * i + k)
            == Some(frames[j] * PAGE + 8 * k)
  {
    var view := MapFrames(BootView(), HEAP_ADDRESS, frames);
    assert Resolve(view, HEAP_ADDRESS + i * PAGE + 8 * k) == Some(frames[j] * PAGE + 8 * k) by {
      PageBytes(frames, i, j, 8 * k);
    }
    UnitByte(i, k);
  }

  /** Every two units of the heap's pages reach different physical words. */
  ghost predicate UnitsApart(frames: seq<nat>) {
    var view := MapFrames(BootView(), HEAP_ADDRESS, frames);
    forall u, w {:trigger UnitAddress(view, u), UnitAddress(view, w)} ::
      HEAP <= u < w < HEAP + PAGE_UNITS * |frames| ==> UnitAddress(view, u) != UnitAddress(view, w)
  }

  lemma SplitUnit(u: int, pages: nat) returns (i: nat, k: nat)
    requires HEAP <= u < HEAP + PAGE_UNITS * pages
    ensures i < pages && k < PAGE_UNITS && u == HEAP + PAGE_UNITS * i + k
  {
    i, k := (u - HEAP) / PAGE_UNITS, (u - HEAP) % PAGE_UNITS;
  }

  lemma FramesApart(f: nat, g: nat, k: nat, l: nat)
    requires k < PAGE_UNITS && l < PAGE_UNITS
    ensures f * PAGE + 8 * k == g * PAGE + 8 * l ==> f == g && k == l
  {
    PageOffset(f, 8 * k);
    PageOffset(g, 8 * l);
  }

  /** Up to 1024 pages every unit is in its own page's frame. */
  lemma UnitAt(frames: seq<nat>, u: int) returns (i: nat, k: nat)
    requires Distinct(frames) && |frames| <= 1024 && HEAP <= u < HEAP + PAGE_UNITS * |frames|
    ensures i < |frames| && k < PAGE_UNITS && u == HEAP + PAGE_UNITS * i + k
    ensures UnitAddress(MapFrames(BootView(), HEAP_ADDRESS, frames), u) == Some(frames[i] * PAGE + 8 * k)
  {
    HeapSurvivesGrowth(frames);
    i, k := SplitUnit(u, |frames|);
    assert PageReaches(frames, i, i);
    UnitReaches(frames, i, i, k);
  }

  lemma TwoUnitsApart(frames: seq<nat>, u: int, w: int)
    requires Distinct(frames) && |frames| <= 1024 && HEAP <= u < w < HEAP + PAGE_UNITS * |frames|
    ensures var view := MapFrames(BootView(), HEAP_ADDRESS, frames); UnitAddress(view, u) != UnitAddress(view, w)
  {
    var i, k := UnitAt(frames, u);
    var j, l := UnitAt(frames, w);
    assert i != j ==> frames[i] != frames[j];
    FramesApart(frames[i], frames[j], k, l);
  }

  /** The first unit of the heap and the first of page 1025 are the same word of memory. */
  lemma UnitsCollide(frames: seq<nat>)
    requires |frames| > 1024
    ensures !UnitsApart(frames)
  {
    var view := MapFrames(BootView(), HEAP_ADDRESS, frames);
    var i := HeapPageAfterGrowth(frames, 0);
    var j := HeapPageAfterGrowth(frames, 1024);
    NewestIsUnique(|frames|, 0, i, j);
    UnitReaches(frames, 0, i, 0);
    UnitReaches(frames, 1024, j, 0);
    assert UnitAddress(view, HEAP) == UnitAddress(view, HEAP + PAGE_UNITS * 1024);
  }

  /** The heap's units are words of their own, as the list and the live blocks need them to be, exactly up to 1024
      pages. */
  lemma HeapUnitsApart(h: Heap)
    requires OnlyHeapMapped(h)
    ensures UnitsApart(h.backing) <==> |h.backing| <= 1024
  {
    if |h.backing| <= 1024 {
      var view := MapFrames(BootView(), HEAP_ADDRESS, h.backing);
      forall u, w | HEAP <= u < w < HEAP + PAGE_UNITS * |h.backing|
        ensures UnitAddress(view, u) != UnitAddress(view, w)
      {
        TwoUnitsApart(h.backing, u, w);
      }
    } else {
      UnitsCollide(h.backing);
    }
  }

  // ----- From boot to a heap that is too large

  /** allocate_frame when the free frames are a range. */
  method TakeLowest(frames: FrameAllocator, lo: nat, hi: nat) returns (frame: nat)
    requires frames.Valid() && (forall f: nat :: f in frames.Free() <==> lo <= f < hi)
    modifies frames.bitmap
    ensures frames.Valid() && frames.ram == old(frames.ram)
    ensures frame == (if lo < hi then lo * FRAME_BYTES else 0)
    ensures forall f: nat :: f in frames.Free() <==> lo + 1 <= f < hi
  {
    assert lo < hi ==> lo in frames.Free();
    frame := frames.AllocateFrame();
  }

  /** The memory side of kmain: frames, two of them taken at once, paging and the empty heap, from a kernel loaded at
      1 MB whose image holds the page directory and the page table. kmain sets paging up first; the two steps write
      different state. */
  method Boot(totalRamBytes: nat, kernelEnd: nat, kdir: nat, ktab: nat, mem: Memory, base: int, words: map<int, Header>)
    returns (h: Heap)
    requires totalRamBytes / FRAME_BYTES <= FRAMES && 0x10_0000 < kernelEnd <= 0x40_0000
    requires 256 <= kdir <= kernelEnd / FRAME_BYTES && 256 <= ktab <= kernelEnd / FRAME_BYTES && kdir != ktab
    requires AllFrames(mem) && 0 < base < HEAP && forall u :: 0 < u < LIMIT ==> u in words
    ensures h.Valid() && OnlyHeapMapped(h) && h.freep == 0 && h.free == [] && h.backing == []
    ensures fresh(h) && fresh(h.pager) && fresh(h.pager.frames.bitmap)
    ensures forall f: nat :: f in h.pager.frames.ram <==>
              (kernelEnd + 4095) / FRAME_BYTES < f < totalRamBytes / FRAME_BYTES
    ensures forall f: nat :: f in h.pager.frames.Free() <==>
              (kernelEnd + 4095) / FRAME_BYTES + 3 <= f < totalRamBytes / FRAME_BYTES
    ensures 256 !in h.pager.frames.ram
  {
    var frames := new FrameAllocator();
    frames.InitMemory(totalRamBytes, 0x10_0000, kernelEnd);
    var lo, hi := (kernelEnd + 4095) / FRAME_BYTES + 1, totalRamBytes / FRAME_BYTES;
    var frame1 := TakeLowest(frames, lo, hi);
    var frame2 := TakeLowest(frames, lo + 1, hi);
    assert kernelEnd / FRAME_BYTES <= (kernelEnd + 4095) / FRAME_BYTES <= 1024;
    var pager := new Pager(frames, kdir, ktab, mem);
    pager.InitPaging(0x10_0000, kernelEnd);
    h := new Heap(pager, base, words);
  }

  /** A request for whole pages asks for exactly those units and pages. */
  lemma WholePages(pages: nat)
    requires 1 <= pages && pages * PAGE + 4095 < WORD
    ensures UnitsFor(pages * PAGE - 8) == PAGE_UNITS * pages && PagesFor(PAGE_UNITS * pages) == pages
  {
    PagesForPlain(PAGE_UNITS * pages);
  }

  /** With enough frames, the first request of a booted heap maps all its pages. */
  method FirstRequest(h: Heap, pages: nat, ghost log: PageLog) returns (ghost added: seq<nat>)
    requires h.Valid() && h.PagesValid() && h.freep == 0 && h.free == [] && log == h.Log()
    requires 1 <= pages <= |h.pager.frames.Free()| && pages * PAGE + 4095 < WORD
    modifies h, h.pager, h.pager.frames.bitmap
    ensures h.Valid() && h.PagesSince(log, added) && |added| == pages
  {
    WholePages(pages);
    ghost var cut, grown;
    var r;
    ghost var before := h.Now();
    r, cut, grown, added := h.Malloc(pages * 4096 - 8);
    FirstOutcome(before, h.Now(), PAGE_UNITS * pages, r, cut, grown, log.had, |added|);
  }

  lemma FirstOutcome(before: Snap, after: Snap, n: nat, r: int, cut: int, grown: seq<Block>, had: nat, used: nat)
    requires Outcome(before, after, n, r, cut, grown, had, used) && before.free == [] && had >= PagesFor(n)
    ensures r != 0 && used == PagesFor(n)
  {
  }

  /** What is left of the mappings when a heap has a number of pages. */
  ghost predicate MappingsLeft(h: Heap, pages: nat)
    reads h, h.pager, h.pager.frames, h.pager.frames.bitmap
  {
    && OnlyHeapMapped(h) && |h.backing| == pages
    && (VgaKept(h.pager.View()) <==> pages <= 184)
    && (KernelKept(h.pager.View()) <==> pages <= 256)
    && (HeapPagesKept(h.backing) <==> pages <= 1024)
    && (UnitsApart(h.backing) <==> pages <= 1024)
  }

  lemma MappingsOf(log: PageLog, added: seq<nat>, h: Heap, pages: nat)
    requires h.PagesSince(log, added) && |added| == pages && 256 !in h.pager.frames.ram
    requires log.end == HEAP_ADDRESS && log.backing == [] && log.view == BootView()
    ensures MappingsLeft(h, pages)
  {
    GrowthKeepsHeapMapped(log, added, h);
    GrowthDisturbs(h);
    HeapUnitsApart(h);
  }

  method Fill(h: Heap, pages: nat)
    requires h.Valid() && OnlyHeapMapped(h) && h.freep == 0 && h.free == [] && h.backing == []
    requires 256 !in h.pager.frames.ram
    requires 1 <= pages <= |h.pager.frames.Free()| && pages * PAGE + 4095 < WORD
    modifies h, h.pager, h.pager.frames.bitmap
    ensures h.Valid() && MappingsLeft(h, pages)
  {
    ghost var log := h.Log();
    ghost var added := FirstRequest(h, pages, log);
    MappingsOf(log, added, h, pages);
  }

  /** A heap as booted that grows to any number of pages there are frames for: from page 185 on the screen is lost,
      from page 257 on the kernel, and from page 1025 on the heap overlaps itself. */
  method FillFromBoot(totalRamBytes: nat, kernelEnd: nat, kdir: nat, ktab: nat, mem: Memory, base: int,
                      words: map<int, Header>, pages: nat)
    returns (h: Heap)
    requires totalRamBytes / FRAME_BYTES <= FRAMES && 0x10_0000 < kernelEnd <= 0x40_0000
    requires 256 <= kdir <= kernelEnd / FRAME_BYTES && 256 <= ktab <= kernelEnd / FRAME_BYTES && kdir != ktab
    requires AllFrames(mem) && 0 < base < HEAP && forall u :: 0 < u < LIMIT ==> u in words
    requires 1 <= pages && (kernelEnd + 4095) / FRAME_BYTES + 3 + pages <= totalRamBytes / FRAME_BYTES
    ensures h.Valid() && MappingsLeft(h, pages)
  {
    h := Boot(totalRamBytes, kernelEnd, kdir, ktab, mem, base, words);
    CountAbove(h.pager.frames.Free(), (kernelEnd + 4095) / FRAME_BYTES + 3, totalRamBytes / FRAME_BYTES);
    Fill(h, pages);
  }

  /** How many frames a range has. */
  lemma {:induction false} CountAbove(frames: set<nat>, lo: nat, hi: nat)
    requires lo <= hi && forall f: nat :: f in frames <==> lo <= f < hi
    ensures |frames| == hi - lo
    decreases hi
  {
    if lo == hi {
      assert frames == {};
    } else {
      var rest := frames - {hi - 1};
      CountAbove(rest, lo, hi - 1);
      assert frames == rest + {hi - 1};
    }
  }
}
