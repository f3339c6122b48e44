/** Where threads live: create_thread's two blocks come from malloc, the main thread from the kernel image. */
module ThreadStorage {
  import opened Alloc
  import opened FreeList
  import opened HeapState
  import opened Machine
  import opened Threads

  const THREAD_BYTES := 8
  const STACK_BYTES := 4096

  /** Byte address of what malloc returns for the block with this header. */
  function Payload(b: int): int { 8 * (b + 1) }

  /** The headers of a thread's two heap blocks. */
  datatype Owned = Owned(thread: int, stack: int)

  ghost predicate Hosted(live: map<int, int>, t: int, st: Stack, o: Owned) {
    && o.thread in live && o.stack in live && o.thread != o.stack
    && live[o.thread] >= 2 && live[o.stack] >= 513
    && t == Payload(o.thread) && st == Stack(Payload(o.stack), Payload(o.stack) + STACK_BYTES)
  }

  ghost predicate NoneShared(o: Owned, o': Owned) {
    o.thread != o'.thread && o.thread != o'.stack && o.stack != o'.thread && o.stack != o'.stack
  }

  /** Every thread but main has two live blocks of its own; main and its stack lie below the heap. */
  ghost predicate Hosts(live: map<int, int>, main: int, stacks: map<int, Stack>, owners: map<int, Owned>) {
    && main in stacks && Aligned(main, stacks[main]) && main + 8 <= 8 * HEAP && stacks[main].hi <= 8 * HEAP
    && Apart(main, main + 8, stacks[main].lo, stacks[main].hi)
    && (forall t :: t in stacks ==> t == main || (t in owners && Hosted(live, t, stacks[t], owners[t])))
    && (forall t {:trigger owners[t]} :: t in owners ==> t in stacks && t != main)
    && (forall t, u {:trigger owners[t], owners[u]} ::
          t in owners && u in owners && t != u ==> NoneShared(owners[t], owners[u]))
  }

  ghost predicate AboveHeap(live: map<int, int>) {
    forall b :: b in live ==> HEAP <= b
  }

  lemma BlocksDisjoint(live: map<int, int>, b: int, c: int)
    requires LiveApart(live) && b in live && c in live && b != c
    ensures Apart(Payload(b), 8 * (b + live[b]), Payload(c), 8 * (c + live[c]))
  {
  }

  lemma HostedApart(live: map<int, int>, t: int, st: Stack, o: Owned, u: int, st': Stack, o': Owned)
    requires LiveApart(live) && Hosted(live, t, st, o) && Hosted(live, u, st', o')
    requires (t == u && st == st' && o == o') || NoneShared(o, o')
    ensures Apart(t, t + 8, st'.lo, st'.hi)
    ensures t != u ==> Apart(t, t + 8, u, u + 8) && Apart(st.lo, st.hi, st'.lo, st'.hi)
  {
    BlocksDisjoint(live, o.thread, o'.stack);
    if o != o' {
      BlocksDisjoint(live, o.thread, o'.thread);
      BlocksDisjoint(live, o.stack, o'.stack);
    }
  }

  lemma HostedAbove(live: map<int, int>, t: int, st: Stack, o: Owned)
    requires AboveHeap(live) && Hosted(live, t, st, o)
    ensures 8 * HEAP < t && 8 * HEAP < st.lo && Aligned(t, st)
  {
  }

  lemma HostsSeparate(live: map<int, int>, main: int, stacks: map<int, Stack>, owners: map<int, Owned>, t: int, u: int)
    requires LiveApart(live) && AboveHeap(live) && Hosts(live, main, stacks, owners) && t in stacks && u in stacks
    ensures Aligned(t, stacks[t]) && SeparateThreads(stacks, t, u)
  {
    if t != main {
      assert t in owners && Hosted(live, t, stacks[t], owners[t]);
      HostedAbove(live, t, stacks[t], owners[t]);
    }
    if u != main {
      assert u in owners && Hosted(live, u, stacks[u], owners[u]);
      HostedAbove(live, u, stacks[u], owners[u]);
    }
    if t != main && u != main {
      HostedApart(live, t, stacks[t], owners[t], u, stacks[u], owners[u]);
    }
  }

  /** Blocks that malloc keeps apart keep threads apart. */
  lemma HostsDisjoint(live: map<int, int>, main: int, stacks: map<int, Stack>, owners: map<int, Owned>)
    requires LiveApart(live) && AboveHeap(live) && Hosts(live, main, stacks, owners)
    ensures Disjoint(stacks)
  {
    forall t, u | t in stacks && u in stacks
      ensures Aligned(t, stacks[t]) && SeparateThreads(stacks, t, u)
    {
      HostsSeparate(live, main, stacks, owners, t, u);
    }
    forall t | t in stacks
      ensures Aligned(t, stacks[t])
    {
      HostsSeparate(live, main, stacks, owners, t, t);
    }
  }

  ghost predicate Extends(live: map<int, int>, more: map<int, int>) {
    forall b {:trigger b in more} {:trigger b in live} :: b in live ==> b in more && more[b] == live[b]
  }

  /** More live blocks take nothing from the threads. */
  lemma HostsKept(live: map<int, int>, more: map<int, int>, main: int, stacks: map<int, Stack>, owners: map<int, Owned>)
    requires Hosts(live, main, stacks, owners) && Extends(live, more)
    ensures Hosts(more, main, stacks, owners)
  {
    forall t | t in stacks && t != main
      ensures t in owners && Hosted(more, t, stacks[t], owners[t])
    {
    }
  }

  /** Two fresh blocks of the sizes create_thread asks for give one more thread a place of its own. */
  lemma FreshBlocksHost(live: map<int, int>, more: map<int, int>, main: int, stacks: map<int, Stack>,
                        owners: map<int, Owned>, b: int, c: int, t: int)
    requires Hosts(live, main, stacks, owners) && Extends(live, more)
    requires b !in live && c !in live && b != c && HEAP <= b && t == Payload(b)
    requires b in more && more[b] == UnitsFor(THREAD_BYTES) && c in more && more[c] == UnitsFor(STACK_BYTES)
    ensures t !in stacks
    ensures Hosts(more, main, stacks[t := Stack(Payload(c), Payload(c) + STACK_BYTES)], owners[t := Owned(b, c)])
  {
    assert UnitsFor(THREAD_BYTES) == 2 && UnitsFor(STACK_BYTES) == 513;
    forall u | u in stacks
      ensures u != t
      ensures u == main || (u in owners && Hosted(more, u, stacks[u], owners[u]))
      ensures u in owners ==> NoneShared(owners[u], Owned(b, c)) && NoneShared(Owned(b, c), owners[u])
    {
    }
  }

  /** All that create_thread needs of the memory it got. */
  lemma FreshThread(live: map<int, int>, more: map<int, int>, main: int, stacks: map<int, Stack>,
                    owners: map<int, Owned>, b: int, c: int, t: int, base: int)
    requires Hosts(live, main, stacks, owners) && Extends(live, more)
    requires b !in live && c !in live && b != c && t == Payload(b) && base == Payload(c)
    requires b in more && more[b] == UnitsFor(THREAD_BYTES) && c in more && more[c] == UnitsFor(STACK_BYTES)
    requires LiveApart(more) && AboveHeap(more)
    ensures t !in stacks && Disjoint(stacks[t := Stack(base, base + STACK_BYTES)])
    ensures Hosts(more, main, stacks[t := Stack(base, base + STACK_BYTES)], owners[t := Owned(b, c)])
  {
    FreshBlocksHost(live, more, main, stacks, owners, b, c, t);
    HostsDisjoint(more, main, stacks[t := Stack(base, base + STACK_BYTES)], owners[t := Owned(b, c)]);
  }

  ghost predicate Taken(live: map<int, int>, after: map<int, int>, r: int, b: int, n: int) {
    if r == 0 then after == live else r == b + 1 && b !in live && after == live[b := n]
  }

  lemma ServedLive(before: Snap, after: Snap, n: nat, r: int, cut: int, grown: seq<Block>, had: nat, used: nat)
    requires Outcome(before, after, n, r, cut, grown, had, used)
    ensures Taken(before.live, after.live, r, cut, n)
  {
  }

  /** malloc as its callers see it: one more live block of the size asked for, or none. */
  method TakeBlock(h: Heap, nbytes: nat) returns (r: int, ghost cut: int)
    requires h.Valid() && h.PagesValid() && nbytes < WORD && UnitsFor(nbytes) * 8 + 4095 < WORD
    modifies h, h.pager, h.pager.frames.bitmap
    ensures h.Valid() && h.PagesValid()
    ensures Taken(old(h.live), h.live, r, cut, UnitsFor(nbytes))
  {
    ghost var before := h.Now();
    ghost var grown, added;
    r, cut, grown, added := h.Malloc(nbytes);
    ServedLive(before, h.Now(), UnitsFor(nbytes), r, cut, grown, old(h.Log()).had, |added|);
  }

  lemma LiveAboveHeap(base: int, s: Snap, pages: nat)
    requires HeapState.Sound(base, s, pages)
    ensures LiveApart(s.live) && AboveHeap(s.live)
  {
  }

  lemma TwoTaken(live: map<int, int>, mid: map<int, int>, after: map<int, int>, r: int, s: int, b: int, c: int)
    requires Taken(live, mid, r, b, UnitsFor(THREAD_BYTES)) && Taken(mid, after, s, c, UnitsFor(STACK_BYTES))
    ensures Extends(live, after)
    ensures r != 0 && s != 0 ==>
              && b != c && b !in live && c !in live
              && b in after && after[b] == UnitsFor(THREAD_BYTES) && c in after && after[c] == UnitsFor(STACK_BYTES)
  {
  }

  /** Both calls of malloc, the second whatever came of the first. */
  method TakeBlocks(h: Heap) returns (r: int, s: int, ghost b: int, ghost c: int)
    requires h.Valid() && h.PagesValid()
    modifies h, h.pager, h.pager.frames.bitmap
    ensures h.Valid() && h.PagesValid() && Extends(old(h.live), h.live) && LiveApart(h.live) && AboveHeap(h.live)
    ensures r != 0 && s != 0 ==>
              && r == b + 1 && s == c + 1 && b != c && b !in old(h.live) && c !in old(h.live)
              && b in h.live && h.live[b] == UnitsFor(THREAD_BYTES)
              && c in h.live && h.live[c] == UnitsFor(STACK_BYTES)
  {
    r, b := TakeBlock(h, THREAD_BYTES);
    ghost var mid := h.live;
    s, c := TakeBlock(h, STACK_BYTES);
    TwoTaken(old(h.live), mid, h.live, r, s, b, c);
    LiveAboveHeap(h.base, h.Now(), |h.backing|);
  }

  /** create_thread: two blocks from malloc and a thread made of them. The source does not check that it got them;
      here it stops when it did not. */
  method CreateThread(h: Heap, p: Processor, entry: int, main: int, ghost owners: map<int, Owned>)
    returns (thread: int, stack: int, ghost now: map<int, Owned>)
    requires h.Valid() && h.PagesValid() && p.Valid() && !p.open && Hosts(h.live, main, p.stacks, owners)
    modifies h, h.pager, h.pager.frames.bitmap, p
    ensures h.Valid() && p.Valid() && Hosts(h.live, main, p.stacks, now)
    ensures if thread != 0 && stack != 0 then NextBy(old(p.Now()), Create(thread, stack, entry), p.Now())
            else p.Now() == old(p.Now())
  {
    var r, s;
    ghost var b, c;
    r, s, b, c := TakeBlocks(h);
    now, thread, stack := owners, 8 * r, 8 * s;
    if r != 0 && s != 0 {
      FreshThread(old(h.live), h.live, main, p.stacks, owners, b, c, thread, stack);
      now := owners[thread := Owned(b, c)];
      StartThread(p, thread, stack, entry);
    } else {
      HostsKept(old(h.live), h.live, main, p.stacks, owners);
    }
  }

  method StartThread(p: Processor, thread: int, stack: int, entry: int)
    requires p.Valid() && !p.open && thread !in p.stacks
    requires Disjoint(p.stacks[thread := Stack(stack, stack + STACK_BYTES)])
    modifies p
    ensures p.Valid() && p.stacks == old(p.stacks)[thread := Stack(stack, stack + STACK_BYTES)]
    ensures NextBy(old(p.Now()), Create(thread, stack, entry), p.Now())
  {
    p.CreateThread(thread, stack, entry);
  }
}
