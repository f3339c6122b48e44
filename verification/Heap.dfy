/** alloc.c: the kernel's circular, address-ordered free list, rewritten in place. */
module Alloc {
  import opened FreeList
  import opened PageTables
  import opened Frames
  import opened Paging
  import opened HeapState

  class Heap {
    const pager: Pager
    /** The unit where the static variable base lies, in the kernel image below the heap. */
    const base: int
    var mem: map<int, Header>
    var heapEnd: int
    /** 0 stands for NULL. */
    var freep: int

    /** The free blocks in address order, and the position of freep among them (0 is base). */
    ghost var free: seq<Block>
    ghost var fpos: int
    /** Blocks handed out: header unit and size. */
    ghost var live: map<int, int>
    /** Units of every page that a completed morecore added, and the number of those pages. */
    ghost var arena: set<int>
    ghost var granted: nat
    /** The frame behind each heap page, first page first. */
    ghost var backing: seq<nat>

    ghost function Now(): Snap
      reads this
    {
      Snap(mem, heapEnd, freep, free, fpos, live, arena, granted)
    }

    ghost predicate Valid()
      reads this
    {
      Sound(base, Now(), |backing|)
    }

    /** The pages below the heap: tables set up, and a frame in use behind every heap page. */
    ghost predicate PagesValid()
      reads this, pager, pager.frames, pager.frames.bitmap
    {
      pager.Ready() && Backed(backing, pager.Owned())
    }

    ghost function Log(): PageLog
      requires PagesValid() && heapEnd >= 0
      reads this, pager, pager.frames, pager.frames.bitmap
    {
      PageLog(pager.frames.ram, pager.View(), heapEnd * 8, backing, |pager.frames.Free()|)
    }

    /** Since the log was taken, exactly the frames in added have been allocated and mapped, in that order,
        one page after another from the old heap end. */
    ghost predicate PagesSince(log: PageLog, added: seq<nat>)
      reads this, pager, pager.frames, pager.frames.bitmap
    {
      match log
      case PageLog(ram, view, end, before, had) =>
        && PagesValid() && pager.frames.ram == ram && backing == before + added
        && |view.table| == 1024 && pager.View() == MapFrames(view, end, added)
        && |pager.frames.Free()| == had - |added|
    }

    constructor (pager: Pager, base: int, mem: map<int, Header>)
      requires pager.Ready() && 0 < base < HEAP
      requires forall u :: 0 < u < LIMIT ==> u in mem
      ensures Valid() && PagesValid() && freep == 0 && heapEnd == HEAP && this.pager == pager && backing == []
    {
      this.pager, this.base, this.mem, heapEnd, freep := pager, base, mem, HEAP, 0;
      free, fpos, live, arena, granted, backing := [], 0, map[], {}, 0, [];
    }

    // ----- free

    /** The search of lines 97-99: the node just below the block, found in one trip round the ring. */
    method FindPlace(bp: int) returns (p: int, ghost k: int)
      requires Valid() && freep != 0 && bp in live
      ensures Fits(free, k, Block(bp, live[bp])) && p == Node(base, free, k)
      ensures p in mem && p < bp && (mem[p].ptr == base || bp < mem[p].ptr)
    {
      ghost var b := Block(bp, live[bp]);
      assert Extent(b) <= LiveUnits(live) by { DropLive(live, bp); }
      k := PlaceFor(free, b);
      p := freep;
      ghost var j := fpos;
      assert NodeLinked(mem, base, free, j);
      while !(bp > p && bp < mem[p].ptr)
        invariant 0 <= j <= |free| && p == Node(base, free, j) && p in mem
        decreases if j <= k then k - j else |free| + 1 - j + k
      {
        assert NodeLinked(mem, base, free, j);
        if p >= mem[p].ptr && (bp > p || bp < mem[p].ptr) {
          break;
        }
        p := mem[p].ptr;
        j := Next(free, j);
        assert NodeLinked(mem, base, free, j);
      }
      assert NodeLinked(mem, base, free, j);
      assert j == k;
    }

    /** Lines 101-111: link the block in behind node p, joining it to the neighbours it touches. */
    method Relink(p: int, bp: int, ghost k: int)
      requires CanFree(Now(), base, p, bp, k)
      modifies this
      ensures Now() == Freed(old(Now()), base, p, bp, k) && backing == old(backing)
    {
      var q := mem[p].ptr;
      if bp + mem[bp].size == q {
        mem := mem[bp := mem[bp].(size := mem[bp].size + mem[q].size)];
        mem := mem[bp := mem[bp].(ptr := mem[q].ptr)];
      } else {
        mem := mem[bp := mem[bp].(ptr := q)];
      }
      assert mem == JoinUpper(old(mem), p, bp);
      if p + mem[p].size == bp {
        mem := mem[p := mem[p].(size := mem[p].size + mem[bp].size)];
        mem := mem[p := mem[p].(ptr := mem[bp].ptr)];
      } else {
        mem := mem[p := mem[p].(ptr := bp)];
      }
      assert mem == JoinLower(JoinUpper(old(mem), p, bp), p, bp);
      freep := p;
      free, live, fpos := Insert(free, k, Block(bp, live[bp])), live - {bp}, k;
    }

    /** Give back the live block whose header is the unit bp below ap. */
    method Free(ap: int, ghost bp: int)
      requires Valid() && freep != 0 && ap == bp + 1 && bp in live
      modifies this
      ensures Valid() && freep != 0
      ensures heapEnd == old(heapEnd) && backing == old(backing) && arena == old(arena) && granted == old(granted)
      ensures live == old(live) - {bp}
      ensures Fits(old(free), fpos, Block(bp, old(live)[bp]))
      ensures free == Insert(old(free), fpos, Block(bp, old(live)[bp]))
      ensures KeepsUnits(old(mem), mem, LiveUnits(live))
    {
      var p;
      ghost var k;
      p, k := FindPlace(ap - 1);
      FreedSound(base, Now(), |backing|, bp, k);
      Relink(p, ap - 1, k);
    }

    // ----- morecore

    /** One more page at heap_end, if a frame is left. */
    method GrowPage() returns (ok: bool, ghost f: nat)
      requires PagesValid() && HEAP <= heapEnd < LIMIT - PAGE_UNITS
      modifies this`heapEnd, this`backing, pager, pager.frames.bitmap
      ensures PagesValid() && pager.frames.ram == old(pager.frames.ram)
      ensures ok <==> old(pager.frames.Free()) != {}
      ensures !ok ==> heapEnd == old(heapEnd) && backing == old(backing)
                      && pager.mem == old(pager.mem) && pager.frames.Free() == {}
      ensures ok ==>
                && backing == old(backing) + [f] && heapEnd == old(heapEnd) + PAGE_UNITS
                && f in old(pager.frames.Free()) && pager.frames.Free() == old(pager.frames.Free()) - {f}
                && pager.View() == MapIn(old(pager.View()), old(heapEnd) * 8, f * PAGE)
    {
      var phys := pager.frames.AllocateFrame();
      if phys == 0 { return false, 0; }
      pager.MapPage(heapEnd * 8, phys);
      heapEnd := heapEnd + PAGE_UNITS;
      f := phys / PAGE;
      backing := backing + [f];
      ok := true;
    }

    /** One turn of the loop of lines 36-46, after the given pages. */
    method GrowNext(ghost log: PageLog, ghost added: seq<nat>) returns (ok: bool, ghost f: nat)
      requires PagesSince(log, added) && heapEnd == HEAP + PAGE_UNITS * |backing|
      requires log.end == 8 * (HEAP + PAGE_UNITS * |log.backing|)
      modifies this`heapEnd, this`backing, pager, pager.frames.bitmap
      ensures heapEnd == HEAP + PAGE_UNITS * |backing|
      ensures ok <==> |added| < log.had
      ensures PagesSince(log, if ok then added + [f] else added)
    {
      BackingBound(backing);
      assert heapEnd * 8 == log.end + |added| * PAGE;
      ok, f := GrowPage();
      if ok {
        MapFramesSnoc(log.view, log.end, added, f);
        assert backing == log.backing + (added + [f]);
      }
    }

    /** The loop of lines 36-46. It stops at the first failure and keeps the pages mapped so far. */
    method GrowPages(count: nat) returns (ok: bool, ghost added: seq<nat>)
      requires PagesValid() && heapEnd == HEAP + PAGE_UNITS * |backing|
      modifies this`heapEnd, this`backing, pager, pager.frames.bitmap
      ensures PagesSince(old(Log()), added) && heapEnd == HEAP + PAGE_UNITS * |backing| < LIMIT
      ensures ok <==> count <= old(Log()).had
      ensures |added| == if ok then count else old(Log()).had
    {
      ghost var log := Log();
      added := [];
      var i := 0;
      while i < count
        invariant 0 <= i <= count && i <= log.had && |added| == i
        invariant PagesSince(log, added) && heapEnd == HEAP + PAGE_UNITS * |backing|
      {
        ghost var f;
        ok, f := GrowNext(log, added);
        if !ok {
          BackingBound(backing);
          return false, added;
        }
        added := added + [f];
        i := i + 1;
      }
      BackingBound(backing);
      return true, added;
    }

    /** Lines 49-50: the new pages as one block, counted live until free takes it. */
    method ReserveRegion(start: int, pages: nat)
      requires start in mem
      modifies this
      ensures Now() == Reserved(old(Now()), start, pages) && backing == old(backing)
    {
      mem := mem[start := mem[start].(size := PAGE_UNITS * pages)];
      live, granted := live[start := PAGE_UNITS * pages], granted + pages;
      arena := arena + Extent(Block(start, PAGE_UNITS * pages));
    }

    method AddRegion(start: int, pages: nat)
      requires Valid() && freep != 0 && pages >= 1
      requires HEAP <= start && start + PAGE_UNITS * pages == heapEnd
      requires AllBelow(arena, start)
      modifies this
      ensures Valid() && backing == old(backing)
      ensures RegionAdded(old(Now()), Now(), start, pages)
    {
      ReservedSound(base, Now(), |backing|, start, pages);
      ghost var before := Now();
      ReserveRegion(start, pages);
      ghost var reserved := Now();
      Free(start + 1, start);
      RegionFreed(before, reserved, Now(), start, pages);
    }

    /** Changing the list leaves the pages alone. */
    method AddMappedRegion(start: int, pages: nat, ghost log: PageLog, ghost added: seq<nat>)
      requires Valid() && PagesSince(log, added) && freep != 0 && pages >= 1
      requires HEAP <= start && start + PAGE_UNITS * pages == heapEnd
      requires AllBelow(arena, start)
      modifies this
      ensures Valid() && PagesSince(log, added)
      ensures RegionAdded(old(Now()), Now(), start, pages)
    {
      AddRegion(start, pages);
      assert pager.frames.Valid() && AllFrames(pager.mem);
    }

    /** Mapping pages leaves the list alone. */
    method GrowBelowList(count: nat) returns (ok: bool, ghost added: seq<nat>)
      requires Valid() && PagesValid() && freep != 0
      modifies this`heapEnd, this`backing, pager, pager.frames.bitmap
      ensures Valid() && PagesSince(old(Log()), added)
      ensures Now() == old(Now()).(heapEnd := heapEnd) && heapEnd == old(heapEnd) + PAGE_UNITS * |added|
      ensures ok <==> count <= old(Log()).had
      ensures |added| == if ok then count else old(Log()).had
    {
      ghost var before := Now();
      ok, added := GrowPages(count);
      GrownSound(base, before, old(|backing|), |added|);
      assert Now() == before.(heapEnd := HEAP + PAGE_UNITS * (old(|backing|) + |added|));
    }

    /** Grow the heap by whole pages; on failure the list is as before and the frames are gone. */
    method Morecore(nunits: nat) returns (p: int, ghost added: seq<nat>)
      requires Valid() && PagesValid() && freep != 0
      requires 1 <= nunits && nunits * 8 + 4095 < WORD
      modifies this, pager, pager.frames.bitmap
      ensures Valid() && PagesSince(old(Log()), added) && freep != 0
      ensures p == 0 <==> old(Log()).had < PagesFor(nunits)
      ensures |added| == if p == 0 then old(Log()).had else PagesFor(nunits)
      ensures p == 0 ==> Now() == old(Now()).(heapEnd := heapEnd)
      ensures p != 0 ==> p == freep && RegionAdded(old(Now()), Now(), old(heapEnd), PagesFor(nunits))
    {
      PagesForPlain(nunits);
      ArenaBelow(base, Now(), |backing|);
      ghost var log := Log();
      var frames := PagesFor(nunits);
      var heapStart := heapEnd;
      var ok;
      ok, added := GrowBelowList(frames);
      if !ok { return 0, added; }
      ghost var mid := Now();
      AddMappedRegion(heapStart, frames, log, added);
      RegionAddedFrom(old(Now()), mid, Now(), heapStart, frames);
      return freep, added;
    }

    // ----- malloc

    /** Lines 69-72: the empty list of the first call. */
    method InitBase()
      requires Valid() && freep == 0
      modifies this
      ensures Valid() && freep == base && Now() == old(Now()).(freep := base, mem := mem)
      ensures backing == old(backing)
    {
      WithBaseSound(base, Now());
      assert |backing| == 0;
      mem := mem[base := Header(base, 0)];
      freep := base;
      assert Now() == WithBase(base, old(Now()));
    }

    method CutTail(prevp: int, p: int, nunits: nat, ghost i: nat, ghost cut: int) returns (r: int)
      requires CanCarve(Now(), base, prevp, p, nunits, i, cut)
      modifies this
      ensures Now() == Carved(old(Now()), base, prevp, p, nunits, i, cut) && backing == old(backing) && r == cut + 1
    {
      var q := p;
      if mem[p].size == nunits {
        mem := mem[prevp := mem[prevp].(ptr := mem[p].ptr)];
      } else {
        mem := mem[p := mem[p].(size := mem[p].size - nunits)];
        q := q + mem[p].size;
        mem := mem[q := mem[q].(size := nunits)];
      }
      assert mem == CarveMem(old(mem), prevp, p, nunits);
      freep := prevp;
      free, live, fpos := Take(free, i, nunits), live[cut := nunits], i;
      return q + 1;
    }

    /** Lines 74-83: hand out the last nunits of the block p, whose predecessor is prevp. */
    method Carve(prevp: int, p: int, nunits: nat, ghost i: nat) returns (r: int, ghost cut: int)
      requires Valid() && freep != 0
      requires i < |free| && 1 <= nunits <= free[i].size
      requires p == free[i].addr && prevp == Node(base, free, i)
      modifies this
      ensures Valid() && freep != 0 && fpos == i
      ensures r == cut + 1 && cut == old(free)[i].End() - nunits && cut !in old(live) && r != 0
      ensures free == Take(old(free), i, nunits) && live == old(live)[cut := nunits]
      ensures heapEnd == old(heapEnd) && backing == old(backing) && arena == old(arena) && granted == old(granted)
      ensures KeepsUnits(old(mem), mem, LiveUnits(old(live)))
    {
      cut := free[i].End() - nunits;
      CarvedSound(base, Now(), |backing|, prevp, p, nunits, i, cut);
      r := CutTail(prevp, p, nunits, i, cut);
    }

    /** Lines 73-88, one trip round the ring from freep: stop at the first block that is large enough. */
    method Walk(nunits: nat) returns (found: bool, prevp: int, p: int, ghost i: nat)
      requires Valid() && freep != 0 && nunits >= 1
      ensures found ==> Chosen(base, Now(), nunits, i, prevp, p)
      ensures found <==> HasFit(free, nunits)
    {
      WalkStarts(base, Now(), |backing|, nunits);
      prevp := freep;
      p := mem[prevp].ptr;
      i := 0;
      ghost var c := 0;
      while true
        invariant Walking(base, Now(), nunits, c, prevp, p)
        decreases |free| - c
      {
        WalkNode(base, Now(), |backing|, nunits, c, prevp, p);
        if mem[p].size >= nunits {
          i := WalkFits(base, Now(), |backing|, nunits, c, prevp, p);
          assert HasFit(free, nunits);
          return true, prevp, p, i;
        }
        WalkOn(base, Now(), |backing|, nunits, c, prevp, p);
        if p == freep {
          return false, prevp, p, 0;
        }
        prevp := p;
        p := mem[p].ptr;
        c := c + 1;
      }
    }

    /** Serve the request from the chosen block. */
    method Serve(prevp: int, p: int, nunits: nat, ghost i: nat, ghost log: PageLog, ghost added: seq<nat>)
      returns (r: int, ghost cut: int)
      requires Valid() && PagesSince(log, added) && freep != 0
      requires Chosen(base, Now(), nunits, i, prevp, p)
      modifies this
      ensures Valid() && PagesSince(log, added) && freep != 0 && r == cut + 1 && r != 0
      ensures ServedFromList(old(Now()), Now(), nunits, cut)
    {
      r, cut := Carve(prevp, p, nunits, i);
      assert pager.frames.Valid() && AllFrames(pager.mem);
    }

    /** The walk has come round in vain: grow the heap, so that the next walk succeeds. */
    method GrowFor(nunits: nat) returns (p: int, ghost added: seq<nat>)
      requires Valid() && PagesValid() && freep != 0
      requires !HasFit(free, nunits) && 1 <= nunits && nunits * 8 + 4095 < WORD
      modifies this, pager, pager.frames.bitmap
      ensures Valid() && PagesSince(old(Log()), added) && freep != 0
      ensures p == 0 <==> old(Log()).had < PagesFor(nunits)
      ensures |added| == if p == 0 then old(Log()).had else PagesFor(nunits)
      ensures p == 0 ==> Now() == old(Now()).(heapEnd := heapEnd)
      ensures p != 0 ==> p == freep && Grown(old(Now()), Now(), nunits)
    {
      ghost var before := Now();
      p, added := Morecore(nunits);
      if p != 0 {
        GrownFromRegion(base, before, old(|backing|), Now(), |backing|, nunits);
      }
    }

    /** The trip after growth always finds a block, so a call grows the heap at most once. */
    method ServeGrown(nunits: nat, ghost start: Snap, ghost log: PageLog, ghost added: seq<nat>)
      returns (r: int, ghost cut: int, ghost grown: seq<Block>)
      requires Valid() && PagesSince(log, added) && freep != 0 && nunits >= 1
      requires Grown(start, Now(), nunits) && log.had >= PagesFor(nunits) == |added|
      modifies this
      ensures Valid() && PagesSince(log, added) && freep != 0
      ensures Outcome(start, Now(), nunits, r, cut, grown, log.had, |added|)
    {
      ghost var mid, i := Now(), 0;
      var found, prevp, p;
      found, prevp, p, i := Walk(nunits);
      assert found;
      r, cut := Serve(prevp, p, nunits, i, log, added);
      GrowthOutcome(start, mid, Now(), nunits, r, cut, log.had);
      grown := mid.free;
    }

    /** Lines 85-88: nothing fits, so morecore is called. */
    method GrowThenServe(nunits: nat) returns (r: int, ghost cut: int, ghost grown: seq<Block>, ghost added: seq<nat>)
      requires Valid() && PagesValid() && freep != 0
      requires !HasFit(free, nunits) && 1 <= nunits && nunits * 8 + 4095 < WORD
      modifies this, pager, pager.frames.bitmap
      ensures Valid() && PagesSince(old(Log()), added) && freep != 0
      ensures Outcome(old(Now()), Now(), nunits, r, cut, grown, old(Log()).had, |added|)
    {
      ghost var start, log := Now(), Log();
      LiveUnitsMapped(base, mem, heapEnd, free, live);
      var p;
      p, added := GrowFor(nunits);
      if p == 0 {
        NullOutcome(start, Now(), nunits, log.had);
        r, cut, grown := 0, 0, [];
      } else {
        r, cut, grown := ServeGrown(nunits, start, log, added);
      }
    }

    /** Lines 73-88. The ring is walked at most twice, with at most one call of morecore in between. */
    method Search(nunits: nat) returns (r: int, ghost cut: int, ghost grown: seq<Block>, ghost added: seq<nat>)
      requires Valid() && PagesValid() && freep != 0
      requires 1 <= nunits && nunits * 8 + 4095 < WORD
      modifies this, pager, pager.frames.bitmap
      ensures Valid() && PagesSince(old(Log()), added) && freep != 0
      ensures Outcome(old(Now()), Now(), nunits, r, cut, grown, old(Log()).had, |added|)
    {
      ghost var i;
      var found, prevp, p;
      found, prevp, p, i := Walk(nunits);
      if found {
        ghost var start, log := Now(), Log();
        r, cut := Serve(prevp, p, nunits, i, log, []);
        added, grown := [], [];
        FitOutcome(start, Now(), nunits, r, cut, [], log.had);
      } else {
        r, cut, grown, added := GrowThenServe(nunits);
      }
    }

    /** Storage for nbytes bytes, or 0. The payload begins one unit above the header cut. */
    method Malloc(nbytes: nat) returns (r: int, ghost cut: int, ghost grown: seq<Block>, ghost added: seq<nat>)
      requires Valid() && PagesValid()
      requires nbytes < WORD && UnitsFor(nbytes) * 8 + 4095 < WORD
      modifies this, pager, pager.frames.bitmap
      ensures Valid() && PagesSince(old(Log()), added) && freep != 0
      ensures Outcome(old(Now()), Now(), UnitsFor(nbytes), r, cut, grown, old(Log()).had, |added|)
      ensures r != 0 ==> r == cut + 1 && cut in live && LeastUnits(nbytes, live[cut])
    {
      UnitsAreLeast(nbytes, UnitsFor(nbytes));
      var nunits := UnitsFor(nbytes);
      ghost var before := Now();
      if freep == 0 {
        InitBase();
        assert pager.frames.Valid() && AllFrames(pager.mem);
      }
      ghost var start := Now();
      r, cut, grown, added := Search(nunits);
      if before.freep == 0 {
        OutcomeFromBase(before, start, Now(), nunits, r, cut, grown, old(Log()).had, |added|);
      }
    }

    /** A kernel thread writes into memory it got from malloc. */
    method StorePayload(u: int, w: Header, ghost b: int)
      requires Valid() && b in live && b < u < b + live[b]
      modifies this`mem
      ensures Valid() && mem == old(mem)[u := w]
    {
      PayloadSound(base, Now(), |backing|, b, u, w);
      mem := mem[u := w];
    }
  }
}
