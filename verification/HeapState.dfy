/** The state of the kernel heap as values, and what each write of alloc.c does to it. */
module HeapState {
  import opened FreeList
  import opened PageTables
  import opened Frames

  /** Addresses here count 8-byte header units; this is the unit at address 0xC0400000. */
  const HEAP := HEAP_ADDRESS / 8
  const PAGE_UNITS := 512
  /** One past the last unit of the address space. */
  const LIMIT := 0x2000_0000
  const WORD := 0x1_0000_0000

  datatype Header = Header(ptr: int, size: nat)

  /** Units for a request, header included, in 32-bit unsigned arithmetic. */
  function UnitsFor(nbytes: nat): nat
    requires nbytes < WORD
  {
    (nbytes + 7) % WORD / 8 + 1
  }

  /** Pages morecore asks for, in 32-bit unsigned arithmetic. */
  function PagesFor(nunits: nat): nat {
    (nunits * 8 % WORD + 4095) % WORD / 4096
  }

  /** The rounding of line 68 gives room for the request exactly for requests up to 0xFFFFFFF8 bytes. */
  lemma RoomForRequest(nbytes: nat)
    requires nbytes < WORD
    ensures 8 * (UnitsFor(nbytes) - 1) >= nbytes <==> nbytes <= 0xFFFF_FFF8
  {
  }

  /** The least number of units with room for the request after the header; 1 for an empty request and for one whose
      rounding wraps. */
  ghost predicate LeastUnits(nbytes: nat, n: int) {
    if 1 <= nbytes <= 0xFFFF_FFF8 then 8 * (n - 2) < nbytes <= 8 * (n - 1) else n == 1
  }

  /** Line 68 asks for just those. */
  lemma UnitsAreLeast(nbytes: nat, n: int)
    requires nbytes < WORD
    ensures n == UnitsFor(nbytes) <==> LeastUnits(nbytes, n)
  {
    if nbytes + 7 >= WORD {
      assert (nbytes + 7) % WORD == nbytes + 7 - WORD < 8;
    }
  }

  /** The rounding of lines 30-32 covers the request exactly when it does not wrap, and then with the fewest pages;
      when it wraps, morecore asks for no page at all. */
  lemma PagesCover(nunits: nat)
    requires 1 <= nunits <= LIMIT
    ensures PAGE_UNITS * PagesFor(nunits) >= nunits <==> nunits * 8 + 4095 < WORD
    ensures PAGE_UNITS * (PagesFor(nunits) - 1) < nunits <= PAGE_UNITS * PagesFor(nunits) <==> nunits * 8 + 4095 < WORD
    ensures PagesFor(nunits) == 0 <==> nunits * 8 + 4095 >= WORD
  {
    if nunits * 8 + 4095 < WORD {
      PagesForPlain(nunits);
    } else if nunits * 8 < WORD {
      assert (nunits * 8 + 4095) % WORD == nunits * 8 + 4095 - WORD < 4096;
    } else {
      assert nunits * 8 % WORD == 0;
    }
  }

  lemma PagesForPlain(nunits: nat)
    requires 1 <= nunits && nunits * 8 + 4095 < WORD
    ensures PagesFor(nunits) == (nunits * 8 + 4095) / 4096 >= 1
    ensures PAGE_UNITS * (PagesFor(nunits) - 1) < nunits <= PAGE_UNITS * PagesFor(nunits)
  {
  }

  // ----- The ring

  /** Node 0 of the ring is base; node i is free block i - 1. */
  ghost function Node(base: int, bs: seq<Block>, i: int): int
    requires 0 <= i <= |bs|
  {
    if i == 0 then base else bs[i - 1].addr
  }

  ghost function NodeSize(bs: seq<Block>, i: int): int
    requires 0 <= i <= |bs|
  {
    if i == 0 then 0 else bs[i - 1].size
  }

  ghost function Next(bs: seq<Block>, i: int): int
    requires 0 <= i <= |bs|
  {
    if i == |bs| then 0 else i + 1
  }

  /** Node number k + 1 of the walk that starts after node f: one step per node, wrapping once. */
  ghost function Step(n: int, f: int, k: int): int {
    if f + 1 + k < n then f + 1 + k else f + 1 + k - n
  }

  /** Memory holds the list as one cycle through base, in address order, wrapping once. */
  ghost predicate Ring(mem: map<int, Header>, base: int, bs: seq<Block>) {
    forall i :: 0 <= i <= |bs| ==> NodeLinked(mem, base, bs, i)
  }

  ghost predicate NodeLinked(mem: map<int, Header>, base: int, bs: seq<Block>, i: int)
    requires 0 <= i <= |bs|
  {
    var a := Node(base, bs, i);
    a in mem && mem[a].ptr == Node(base, bs, Next(bs, i)) && mem[a].size == NodeSize(bs, i)
  }

  /** Node i is the first, in ring order after node f, with room for n units. */
  ghost predicate FirstFit(bs: seq<Block>, f: int, n: int, i: int)
    requires 0 <= f <= |bs|
  {
    && 1 <= i <= |bs| && bs[i - 1].size >= n
    && exists c :: 0 <= c <= |bs| && Step(|bs| + 1, f, c) == i && AllSmall(bs, f, n, c)
  }

  /** The first c nodes after node f are too small. */
  ghost predicate AllSmall(bs: seq<Block>, f: int, n: int, c: int)
    requires 0 <= f <= |bs|
  {
    forall k :: 0 <= k < c <= |bs| + 1 ==> WalkSize(bs, f, k) < n
  }

  /** From block f on, and round once, no block before block i is large enough. */
  ghost predicate NoneSooner(bs: seq<Block>, f: int, n: int, i: int) {
    forall j :: 0 <= j < |bs| && (if i >= f then f <= j < i else f <= j || j < i) ==> bs[j].size < n
  }

  /** The first fit after node f, in terms of the list. */
  lemma FirstFitIs(bs: seq<Block>, f: int, n: int, i: int)
    requires 0 <= f <= |bs| && 0 <= i < |bs| && n >= 1
    ensures FirstFit(bs, f, n, i + 1) <==> bs[i].size >= n && NoneSooner(bs, f, n, i)
  {
    var c := if i >= f then i - f else i - f + |bs| + 1;
    assert Step(|bs| + 1, f, c) == i + 1;
    if NoneSooner(bs, f, n, i) {
      FewSmall(bs, f, n, i, c);
    }
    if AllSmall(bs, f, n, c) {
      forall j | 0 <= j < |bs| && (if i >= f then f <= j < i else f <= j || j < i)
        ensures bs[j].size < n
      {
        var k := if j >= f then j - f else j - f + |bs| + 1;
        assert WalkSize(bs, f, k) == bs[j].size;
      }
    }
  }

  lemma FewSmall(bs: seq<Block>, f: int, n: int, i: int, c: int)
    requires 0 <= f <= |bs| && 0 <= i < |bs| && n >= 1 && NoneSooner(bs, f, n, i)
    requires c == if i >= f then i - f else i - f + |bs| + 1
    ensures AllSmall(bs, f, n, c)
  {
    forall k | 0 <= k < c
      ensures WalkSize(bs, f, k) < n
    {
      var at := Step(|bs| + 1, f, k);
      assert at > 0 ==> WalkSize(bs, f, k) == bs[at - 1].size;
    }
  }

  ghost function WalkSize(bs: seq<Block>, f: int, k: int): int
    requires 0 <= f <= |bs| && 0 <= k <= |bs|
  {
    NodeSize(bs, Step(|bs| + 1, f, k))
  }

  ghost predicate HasFit(bs: seq<Block>, n: int) {
    exists i :: 0 <= i < |bs| && bs[i].size >= n
  }

  lemma WholeWalk(bs: seq<Block>, f: int, n: int)
    requires 0 <= f <= |bs| && AllSmall(bs, f, n, |bs| + 1)
    ensures !HasFit(bs, n)
  {
    forall i | 0 <= i < |bs|
      ensures bs[i].size < n
    {
      var k := if i + 1 > f then i - f else i - f + |bs| + 1;
      assert WalkSize(bs, f, k) == bs[i].size;
    }
  }

  // ----- Live blocks

  ghost predicate LiveApart(live: map<int, int>) {
    && (forall b :: b in live ==> live[b] >= 1)
    && (forall b, c :: b in live && c in live && b < c ==> b + live[b] <= c)
  }

  ghost function LiveUnits(live: map<int, int>): set<int> {
    set b, u | b in live && b <= u < b + live[b] && Block(b, live[b]).Has(u) :: u
  }

  lemma AddLive(live: map<int, int>, b: int, n: int)
    requires b !in live && n >= 1
    ensures LiveUnits(live[b := n]) == LiveUnits(live) + Extent(Block(b, n))
  {
    var after := live[b := n];
    forall u | u in LiveUnits(live) + Extent(Block(b, n))
      ensures u in LiveUnits(after)
    {
      if u in LiveUnits(live) {
        var c :| c in live && c <= u < c + live[c] && Block(c, live[c]).Has(u);
        assert c in after && Block(c, after[c]).Has(u);
      } else {
        assert b in after && Block(b, after[b]).Has(u);
      }
    }
  }

  lemma DropLive(live: map<int, int>, b: int)
    requires LiveApart(live) && b in live
    ensures LiveApart(live - {b})
    ensures LiveUnits(live - {b}) == LiveUnits(live) - Extent(Block(b, live[b]))
    ensures Extent(Block(b, live[b])) <= LiveUnits(live)
  {
    var after := live - {b};
    forall u | u in LiveUnits(live) && u !in Extent(Block(b, live[b]))
      ensures u in LiveUnits(after)
    {
      var c :| c in live && c <= u < c + live[c] && Block(c, live[c]).Has(u);
      assert c in after && Block(c, after[c]).Has(u);
    }
    forall u | u in LiveUnits(after)
      ensures u in LiveUnits(live) && u !in Extent(Block(b, live[b]))
    {
      var c :| c in after && c <= u < c + after[c] && Block(c, after[c]).Has(u);
      assert c in live && Block(c, live[c]).Has(u);
    }
    forall u | u in Extent(Block(b, live[b]))
      ensures u in LiveUnits(live)
    {
      assert b in live && Block(b, live[b]).Has(u);
    }
  }

  // ----- Relinking the ring in place

  /** A block that shares no unit with the list has a place in its order. */
  lemma PlaceFor(bs: seq<Block>, b: Block) returns (k: int)
    requires Coalesced(bs) && b.size >= 1 && Units(bs) !! Extent(b)
    ensures Fits(bs, k, b)
  {
    forall i | 0 <= i < |bs|
      ensures bs[i].End() <= b.addr || b.End() <= bs[i].addr
    {
      var u := if bs[i].addr < b.addr then b.addr else bs[i].addr;
      assert bs[i].Has(u) ==> u in Units(bs);
      assert b.Has(u) ==> u in Extent(b);
    }
    k := 0;
    while k < |bs| && bs[k].End() <= b.addr
      invariant 0 <= k <= |bs|
      invariant forall i :: 0 <= i < k ==> bs[i].End() <= b.addr
    {
      k := k + 1;
    }
  }

  /** Everything in the list lies above base. */
  ghost predicate Above(base: int, bs: seq<Block>) {
    forall i :: 0 <= i < |bs| ==> base < bs[i].addr
  }

  lemma NodesAscend(base: int, bs: seq<Block>, i: int, j: int)
    requires Coalesced(bs) && Above(base, bs) && 0 <= i <= |bs| && 0 <= j <= |bs|
    ensures Node(base, bs, i) < Node(base, bs, j) <==> i < j
    ensures Node(base, bs, i) == Node(base, bs, j) <==> i == j
  {
  }

  /** Lines 101-105: bp takes over the link of p, and the upper neighbour if it touches it. */
  function JoinUpper(mem: map<int, Header>, p: int, bp: int): map<int, Header>
    requires p in mem && bp in mem && mem[p].ptr in mem
  {
    var q := mem[p].ptr;
    if bp + mem[bp].size == q then mem[bp := Header(mem[q].ptr, mem[bp].size + mem[q].size)]
    else mem[bp := mem[bp].(ptr := q)]
  }

  /** Lines 106-110: p takes over bp if it touches it, or links to it. */
  function JoinLower(mem: map<int, Header>, p: int, bp: int): map<int, Header>
    requires p in mem && bp in mem
  {
    if p + mem[p].size == bp then mem[p := Header(mem[bp].ptr, mem[p].size + mem[bp].size)]
    else mem[p := mem[p].(ptr := bp)]
  }

  /** Where the nodes of Insert's result come from: those up to k stay, those above the joint shift. */
  lemma NodesOfInsert(base: int, bs: seq<Block>, k: int, b: Block, i: int)
    requires 0 <= k <= |bs| && 0 <= i <= |Insert(bs, k, b)|
    ensures var r := Insert(bs, k, b);
            var at := if JoinsLower(bs, k, b) then k else k + 1;
            var shift := |bs| - |r|;
            && at <= |r| && shift == (if JoinsUpper(bs, k, b) then 1 else 0) + k - at
            && (i <= k ==> Node(base, r, i) == Node(base, bs, i))
            && (i < k ==> NodeSize(r, i) == NodeSize(bs, i))
            && (i == at ==> r[i - 1] == Joined(bs, k, b))
            && (i > at ==> 0 <= i + shift <= |bs| && Node(base, r, i) == Node(base, bs, i + shift)
                           && NodeSize(r, i) == NodeSize(bs, i + shift))
  {
  }

  /** A node whose header was not written stays linked when its address, size and successor stay. */
  lemma CopiedNode(mem: map<int, Header>, after: map<int, Header>, base: int,
                   bs: seq<Block>, i: int, r: seq<Block>, j: int)
    requires 0 <= i <= |bs| && 0 <= j <= |r| && NodeLinked(mem, base, bs, i)
    requires Node(base, r, j) == Node(base, bs, i) && NodeSize(r, j) == NodeSize(bs, i)
    requires Node(base, r, Next(r, j)) == Node(base, bs, Next(bs, i))
    requires Node(base, bs, i) in after && after[Node(base, bs, i)] == mem[Node(base, bs, i)]
    ensures NodeLinked(after, base, r, j)
  {
  }

  ghost predicate InsertReady(mem: map<int, Header>, base: int, bs: seq<Block>, k: int, b: Block) {
    && Ring(mem, base, bs) && Coalesced(bs) && Above(base, bs) && Fits(bs, k, b) && base < b.addr
    && b.addr in mem && mem[b.addr].size == b.size
  }

  lemma ReadyLinks(mem: map<int, Header>, base: int, bs: seq<Block>, k: int, b: Block)
    requires InsertReady(mem, base, bs, k, b)
    ensures var p := Node(base, bs, k);
            && p in mem && mem[p].ptr in mem && p < b.addr
            && mem[p] == Header(Node(base, bs, Next(bs, k)), NodeSize(bs, k))
            && mem[mem[p].ptr] == Header(Node(base, bs, Next(bs, Next(bs, k))), NodeSize(bs, Next(bs, k)))
            && (JoinsUpper(bs, k, b) <==> b.End() == mem[p].ptr)
            && (JoinsLower(bs, k, b) <==> p + mem[p].size == b.addr)
  {
    assert NodeLinked(mem, base, bs, k) && NodeLinked(mem, base, bs, Next(bs, k));
  }

  lemma RingInsert(mem: map<int, Header>, base: int, bs: seq<Block>, k: int, b: Block)
    requires InsertReady(mem, base, bs, k, b)
    ensures var p := Node(base, bs, k);
            && p in mem && mem[p].ptr in mem
            && Ring(JoinLower(JoinUpper(mem, p, b.addr), p, b.addr), base, Insert(bs, k, b))
  {
    ReadyLinks(mem, base, bs, k, b);
    var p := Node(base, bs, k);
    var after := JoinLower(JoinUpper(mem, p, b.addr), p, b.addr);
    assert forall a :: a in mem && a != p && a != b.addr ==> a in after && after[a] == mem[a];
    forall i | 0 <= i <= |Insert(bs, k, b)|
      ensures NodeLinked(after, base, Insert(bs, k, b), i)
    {
      if k <= i <= (if JoinsLower(bs, k, b) then k else k + 1) {
        RingInsertJoint(mem, base, bs, k, b, i);
      } else {
        RingInsertOther(mem, after, base, bs, k, b, i);
      }
    }
  }

  lemma RingInsertOther(mem: map<int, Header>, after: map<int, Header>, base: int,
                        bs: seq<Block>, k: int, b: Block, i: int)
    requires InsertReady(mem, base, bs, k, b)
    requires 0 <= i <= |Insert(bs, k, b)|
    requires i < k || i > if JoinsLower(bs, k, b) then k else k + 1
    requires forall a :: a in mem && a != Node(base, bs, k) && a != b.addr ==> a in after && after[a] == mem[a]
    ensures NodeLinked(after, base, Insert(bs, k, b), i)
  {
    var r := Insert(bs, k, b);
    var j := if i < k then i else i + |bs| - |r|;
    OtherSuccessor(base, bs, k, b, i);
    NodesAscend(base, bs, j, k);
    assert NodeLinked(mem, base, bs, j);
    CopiedNode(mem, after, base, bs, j, r, i);
  }

  lemma OtherSuccessor(base: int, bs: seq<Block>, k: int, b: Block, i: int)
    requires 0 <= k <= |bs| && 0 <= i <= |Insert(bs, k, b)|
    requires i < k || i > if JoinsLower(bs, k, b) then k else k + 1
    ensures var r := Insert(bs, k, b);
            var j := if i < k then i else i + |bs| - |r|;
            && 0 <= j <= |bs| && j != k && (i > k ==> j > k)
            && Node(base, r, i) == Node(base, bs, j) && NodeSize(r, i) == NodeSize(bs, j)
            && Node(base, r, Next(r, i)) == Node(base, bs, Next(bs, j))
  {
    NodesOfInsert(base, bs, k, b, i);
    NodesOfInsert(base, bs, k, b, Next(Insert(bs, k, b), i));
  }

  /** The node that follows the joint in the new list. */
  ghost function AfterJoint(base: int, bs: seq<Block>, k: int, b: Block): int
    requires 0 <= k <= |bs|
  {
    if JoinsUpper(bs, k, b) then Node(base, bs, Next(bs, k + 1)) else Node(base, bs, Next(bs, k))
  }

  lemma JointSuccessor(base: int, bs: seq<Block>, k: int, b: Block)
    requires 0 <= k <= |bs|
    ensures var r := Insert(bs, k, b);
            var at := if JoinsLower(bs, k, b) then k else k + 1;
            at <= |r| && Node(base, r, Next(r, at)) == AfterJoint(base, bs, k, b)
  {
    var r := Insert(bs, k, b);
    var at := if JoinsLower(bs, k, b) then k else k + 1;
    NodesOfInsert(base, bs, k, b, 0);
    if at < |r| {
      NodesOfInsert(base, bs, k, b, at + 1);
    }
  }

  /** The headers after the writes: p's, and the given block's when it stays a node. */
  lemma JointHeaders(mem: map<int, Header>, base: int, bs: seq<Block>, k: int, b: Block)
    requires InsertReady(mem, base, bs, k, b)
    ensures var p := Node(base, bs, k);
            && p in mem && mem[p].ptr in mem
            && var after := JoinLower(JoinUpper(mem, p, b.addr), p, b.addr);
            && p in after && b.addr in after
            && (JoinsLower(bs, k, b) ==> after[p] == Header(AfterJoint(base, bs, k, b), Joined(bs, k, b).size))
            && (!JoinsLower(bs, k, b) ==> after[p] == Header(b.addr, NodeSize(bs, k)))
            && (!JoinsLower(bs, k, b) ==> after[b.addr] == Header(AfterJoint(base, bs, k, b), Joined(bs, k, b).size))
  {
    ReadyLinks(mem, base, bs, k, b);
  }

  lemma RingInsertJoint(mem: map<int, Header>, base: int, bs: seq<Block>, k: int, b: Block, i: int)
    requires InsertReady(mem, base, bs, k, b)
    requires k <= i <= (if JoinsLower(bs, k, b) then k else k + 1)
    ensures var p := Node(base, bs, k);
            && p in mem && mem[p].ptr in mem && i <= |Insert(bs, k, b)|
            && NodeLinked(JoinLower(JoinUpper(mem, p, b.addr), p, b.addr), base, Insert(bs, k, b), i)
  {
    var r := Insert(bs, k, b);
    JointHeaders(mem, base, bs, k, b);
    JointSuccessor(base, bs, k, b);
    NodesOfInsert(base, bs, k, b, k);
    if !JoinsLower(bs, k, b) {
      NodesOfInsert(base, bs, k, b, k + 1);
      if i == k {
        assert Next(r, k) == k + 1 && Node(base, r, k + 1) == b.addr;
      }
    }
  }

  /** Line 76: an exact fit leaves the ring. */
  lemma RingTakeAll(mem: map<int, Header>, base: int, bs: seq<Block>, i: int)
    requires Ring(mem, base, bs) && Coalesced(bs) && Above(base, bs) && 1 <= i <= |bs|
    ensures var prev := Node(base, bs, i - 1);
            && prev in mem && bs[i - 1].addr in mem
            && Ring(mem[prev := mem[prev].(ptr := mem[bs[i - 1].addr].ptr)], base, bs[..i - 1] + bs[i..])
  {
    assert NodeLinked(mem, base, bs, i - 1) && NodeLinked(mem, base, bs, i);
    var prev := Node(base, bs, i - 1);
    var r := bs[..i - 1] + bs[i..];
    var after := mem[prev := mem[prev].(ptr := mem[bs[i - 1].addr].ptr)];
    forall j | 0 <= j <= |r|
      ensures NodeLinked(after, base, r, j)
    {
      var from := if j < i then j else j + 1;
      assert Node(base, r, j) == Node(base, bs, from) && NodeSize(r, j) == NodeSize(bs, from);
      NodesAscend(base, bs, from, i - 1);
      assert NodeLinked(mem, base, bs, from);
      if j != i - 1 {
        assert Node(base, r, Next(r, j)) == Node(base, bs, Next(bs, from));
        CopiedNode(mem, after, base, bs, from, r, j);
      }
    }
  }

  /** Lines 78-80: the tail of a larger block is split off; the ring keeps its links. */
  lemma RingTakeTail(mem: map<int, Header>, base: int, bs: seq<Block>, i: int, n: int)
    requires Ring(mem, base, bs) && Coalesced(bs) && Above(base, bs) && 1 <= i <= |bs|
    requires 1 <= n < bs[i - 1].size
    requires bs[i - 1].End() - n in mem
    ensures var p := bs[i - 1].addr;
            var cut := bs[i - 1].End() - n;
            && p in mem
            && var shrunk := mem[p := Header(mem[p].ptr, bs[i - 1].size - n)];
               Ring(shrunk[cut := shrunk[cut].(size := n)], base, Take(bs, i - 1, n))
  {
    var p := bs[i - 1].addr;
    var cut := bs[i - 1].End() - n;
    assert NodeLinked(mem, base, bs, i);
    var r := Take(bs, i - 1, n);
    var shrunk := mem[p := Header(mem[p].ptr, bs[i - 1].size - n)];
    var after := shrunk[cut := shrunk[cut].(size := n)];
    assert |r| == |bs|;
    forall j | 0 <= j <= |r|
      ensures NodeLinked(after, base, r, j)
    {
      assert forall k :: 0 <= k <= |bs| ==> Node(base, r, k) == Node(base, bs, k);
      assert NodeLinked(mem, base, bs, j);
      NodesAscend(base, bs, j, i);
      if j > i {
        assert bs[i - 1].End() < bs[j - 1].addr;
      }
      if j != i {
        CopiedNode(mem, after, base, bs, j, r, j);
      }
    }
  }

  // ----- The state of the heap, as values

  /** Heap pages have frames of their own, which the frame allocator counts as used. */
  ghost predicate Backed(backing: seq<nat>, owned: set<nat>) {
    && Distinct(backing)
    && forall i :: 0 <= i < |backing| ==> backing[i] in owned
  }

  /** Where the blocks are, and what the headers of live blocks say. */
  ghost predicate Layout(base: int, mem: map<int, Header>, heapEnd: int, free: seq<Block>, live: map<int, int>) {
    && (forall u :: 0 < u < LIMIT ==> u in mem)
    && 0 < base < HEAP <= heapEnd < LIMIT
    && Coalesced(free) && Within(free, HEAP, heapEnd)
    && LiveApart(live)
    && forall b :: b in live ==> HEAP <= b && b + live[b] <= heapEnd && b in mem && mem[b].size == live[b]
  }

  /** Every granted unit is in a free block or in a live block, never both. */
  ghost predicate Accounts(free: seq<Block>, live: map<int, int>, arena: set<int>, granted: nat) {
    && Units(free) !! LiveUnits(live)
    && arena == Units(free) + LiveUnits(live)
    && |arena| == PAGE_UNITS * granted
  }

  /** The ring in memory is the free list, and freep points at its node fpos. */
  ghost predicate Linked(base: int, mem: map<int, Header>, free: seq<Block>, freep: int, fpos: int) {
    Ring(mem, base, free) && 0 <= fpos <= |free| && freep == Node(base, free, fpos)
  }

  /** The words of these units are as they were: whoever owns them sees no change. */
  ghost predicate KeepsUnits(mem: map<int, Header>, mem': map<int, Header>, units: set<int>) {
    forall u {:trigger u in units} :: u in units ==> u in mem && u in mem' && mem'[u] == mem[u]
  }

  /** The fields of the heap at one moment. */
  datatype Snap = Snap(mem: map<int, Header>, heapEnd: int, freep: int,
                       free: seq<Block>, fpos: int, live: map<int, int>, arena: set<int>, granted: nat)

  /** The heap's invariant, over a heap that has grown by the given number of pages. */
  ghost predicate Sound(base: int, s: Snap, pages: nat) {
    match s
    case Snap(mem, heapEnd, freep, free, fpos, live, arena, granted) =>
      && heapEnd == HEAP + PAGE_UNITS * pages
      && Layout(base, mem, heapEnd, free, live)
      && Accounts(free, live, arena, granted)
      && (freep == 0 ==> free == [] && live == map[] && arena == {} && pages == 0 && fpos == 0)
      && (freep != 0 ==> Linked(base, mem, free, freep, fpos))
  }

  /** Lines 69-72: the empty ring, on the first call. */
  function WithBase(base: int, s: Snap): Snap {
    s.(mem := s.mem[base := Header(base, 0)], freep := base)
  }

  lemma WithBaseSound(base: int, s: Snap)
    requires Sound(base, s, 0) && s.freep == 0
    ensures Sound(base, WithBase(base, s), 0)
  {
    var after := WithBase(base, s);
    assert NodeLinked(after.mem, base, after.free, 0);
  }

  ghost predicate CanFree(s: Snap, base: int, p: int, bp: int, k: int) {
    && 0 <= k <= |s.free| && p == Node(base, s.free, k)
    && p in s.mem && bp in s.mem && s.mem[p].ptr in s.mem && p != bp && bp in s.live
  }

  /** The heap after lines 101-111 have put live block bp behind node number k. */
  ghost function Freed(s: Snap, base: int, p: int, bp: int, k: int): Snap
    requires CanFree(s, base, p, bp, k)
  {
    s.(mem := JoinLower(JoinUpper(s.mem, p, bp), p, bp), freep := p, fpos := k,
       free := Insert(s.free, k, Block(bp, s.live[bp])), live := s.live - {bp})
  }

  ghost predicate CanCarve(s: Snap, base: int, prevp: int, p: int, n: nat, i: nat, cut: int) {
    && i < |s.free| && cut == s.free[i].End() - n && 1 <= n <= s.free[i].size
    && p == s.free[i].addr && prevp == Node(base, s.free, i)
    && prevp in s.mem && p in s.mem && s.mem[p].size == s.free[i].size && cut in s.mem
  }

  /** The heap after lines 75-82 have handed out the last n units of free block i. */
  ghost function Carved(s: Snap, base: int, prevp: int, p: int, n: nat, i: nat, cut: int): Snap
    requires CanCarve(s, base, prevp, p, n, i, cut)
  {
    s.(mem := CarveMem(s.mem, prevp, p, n), freep := prevp, fpos := i,
       free := Take(s.free, i, n), live := s.live[cut := n])
  }

  /** The heap after a new region has been counted as one live block. */
  ghost function Reserved(s: Snap, start: int, pages: nat): Snap
    requires start in s.mem
  {
    s.(mem := RegionMem(s.mem, start, pages), live := s.live[start := PAGE_UNITS * pages],
       arena := s.arena + Extent(Block(start, PAGE_UNITS * pages)), granted := s.granted + pages)
  }

  /** What the pages looked like before a call: RAM, kernel view, heap end, backing frames, free frames. */
  datatype PageLog = PageLog(ram: set<nat>, view: View, end: nat, backing: seq<nat>, had: nat)

  /** A region of whole pages has been added to the free list, and live blocks have kept their contents. */
  ghost predicate RegionAdded(before: Snap, after: Snap, start: int, pages: nat) {
    match before
    case Snap(mem, _, _, free, _, live, arena, granted) =>
      var region := Block(start, PAGE_UNITS * pages);
      && after.heapEnd == region.End() && after.live == live && after.freep != 0
      && Fits(free, after.fpos, region) && after.free == Insert(free, after.fpos, region)
      && after.arena == arena + Extent(region) && after.granted == granted + pages
      && KeepsUnits(mem, after.mem, LiveUnits(live))
  }

  lemma RegionFreed(before: Snap, reserved: Snap, after: Snap, start: int, pages: nat)
    requires start in before.mem && pages >= 1 && reserved == Reserved(before, start, pages)
    requires after.live == reserved.live - {start} && reserved.live - {start} == before.live
    requires Fits(before.free, after.fpos, Block(start, PAGE_UNITS * pages))
    requires after.free == Insert(before.free, after.fpos, Block(start, PAGE_UNITS * pages)) && after.freep != 0
    requires after.arena == reserved.arena && after.granted == reserved.granted
    requires after.heapEnd == start + PAGE_UNITS * pages
    requires KeepsUnits(before.mem, reserved.mem, LiveUnits(before.live))
    requires KeepsUnits(reserved.mem, after.mem, LiveUnits(after.live))
    ensures RegionAdded(before, after, start, pages)
  {
    KeepsTwice(before.mem, reserved.mem, after.mem, LiveUnits(before.live));
  }

  lemma RegionAddedFrom(before: Snap, mid: Snap, after: Snap, start: int, pages: nat)
    requires RegionAdded(mid, after, start, pages) && mid == before.(heapEnd := mid.heapEnd)
    ensures RegionAdded(before, after, start, pages)
  {
  }

  /** The walk of malloc: c nodes after freep have been seen, all too small, and p is the next. */
  ghost predicate Walking(base: int, s: Snap, n: nat, c: int, prevp: int, p: int) {
    && 0 <= s.fpos <= |s.free| && 0 <= c <= |s.free|
    && p == Node(base, s.free, Step(|s.free| + 1, s.fpos, c))
    && prevp == Node(base, s.free, Step(|s.free| + 1, s.fpos, c - 1))
    && AllSmall(s.free, s.fpos, n, c)
  }

  lemma WalkStarts(base: int, s: Snap, pages: nat, n: nat)
    requires Sound(base, s, pages) && s.freep != 0
    ensures s.freep in s.mem
    ensures Walking(base, s, n, 0, s.freep, s.mem[s.freep].ptr)
  {
    assert NodeLinked(s.mem, base, s.free, s.fpos);
  }

  lemma WalkHere(base: int, s: Snap, pages: nat, n: nat, c: int, prevp: int, p: int)
    requires Sound(base, s, pages) && s.freep != 0 && Walking(base, s, n, c, prevp, p) && n >= 1
    ensures p in s.mem && s.mem[p].size == WalkSize(s.free, s.fpos, c)
    ensures var i := Step(|s.free| + 1, s.fpos, c);
            s.mem[p].size >= n ==> FirstFit(s.free, s.fpos, n, i) && p == s.free[i - 1].addr
                                   && prevp == Node(base, s.free, i - 1)
    ensures p == s.freep <==> c == |s.free|
  {
    var i := Step(|s.free| + 1, s.fpos, c);
    assert NodeLinked(s.mem, base, s.free, i);
    NodesAscend(base, s.free, i, s.fpos);
  }

  lemma WalkNode(base: int, s: Snap, pages: nat, n: nat, c: int, prevp: int, p: int)
    requires Sound(base, s, pages) && s.freep != 0 && Walking(base, s, n, c, prevp, p) && n >= 1
    ensures p in s.mem && (p == s.freep <==> c == |s.free|)
  {
    WalkHere(base, s, pages, n, c, prevp, p);
  }

  /** Free block i is the one to serve n units from, p its header and prevp the node before it. */
  ghost predicate Chosen(base: int, s: Snap, n: nat, i: nat, prevp: int, p: int) {
    && i < |s.free| && 1 <= n <= s.free[i].size && p == s.free[i].addr && prevp == Node(base, s.free, i)
    && 0 <= s.fpos <= |s.free| && FirstFit(s.free, s.fpos, n, i + 1)
  }

  lemma WalkFits(base: int, s: Snap, pages: nat, n: nat, c: int, prevp: int, p: int) returns (i: nat)
    requires Sound(base, s, pages) && s.freep != 0 && Walking(base, s, n, c, prevp, p) && n >= 1
    requires p in s.mem && s.mem[p].size >= n
    ensures Chosen(base, s, n, i, prevp, p)
  {
    WalkHere(base, s, pages, n, c, prevp, p);
    i := Step(|s.free| + 1, s.fpos, c) - 1;
  }

  lemma StepNext(bs: seq<Block>, f: int, c: int)
    requires 0 <= f <= |bs| && 0 <= c < |bs|
    ensures 0 <= Step(|bs| + 1, f, c) <= |bs|
    ensures Step(|bs| + 1, f, c + 1) == Next(bs, Step(|bs| + 1, f, c))
  {
  }

  lemma WalkOn(base: int, s: Snap, pages: nat, n: nat, c: int, prevp: int, p: int)
    requires Sound(base, s, pages) && s.freep != 0 && Walking(base, s, n, c, prevp, p) && n >= 1
    requires p in s.mem && s.mem[p].size < n
    ensures c < |s.free| ==> Walking(base, s, n, c + 1, p, s.mem[p].ptr)
    ensures c == |s.free| ==> !HasFit(s.free, n)
  {
    WalkHere(base, s, pages, n, c, prevp, p);
    assert AllSmall(s.free, s.fpos, n, c + 1);
    if c == |s.free| {
      WholeWalk(s.free, s.fpos, n);
    } else {
      StepNext(s.free, s.fpos, c);
      assert NodeLinked(s.mem, base, s.free, Step(|s.free| + 1, s.fpos, c));
    }
  }

  /** Every block of Insert's result other than the joined one was in the list before. */
  lemma InsertedOrOld(bs: seq<Block>, k: int, b: Block, i: int)
    requires 0 <= k <= |bs| && 0 <= i < |Insert(bs, k, b)|
    ensures var at := if JoinsLower(bs, k, b) then k else k + 1;
            && 1 <= at <= |Insert(bs, k, b)| && Insert(bs, k, b)[at - 1] == Joined(bs, k, b)
            && (i != at - 1 ==> exists j :: 0 <= j < |bs| && bs[j].size == Insert(bs, k, b)[i].size)
  {
    var r := Insert(bs, k, b);
    var at := if JoinsLower(bs, k, b) then k else k + 1;
    NodesOfInsert(0, bs, k, b, at);
    NodesOfInsert(0, bs, k, b, i + 1);
    if i + 1 < at {
      assert bs[i].size == r[i].size;
    } else if i + 1 > at {
      assert bs[i + |bs| - |r|].size == r[i].size;
    }
  }

  /** The new pages hold the request, whatever they were joined to, and they end the heap. */
  lemma RegionFits(before: Snap, after: Snap, start: int, more: nat, n: nat)
    requires RegionAdded(before, after, start, more) && PAGE_UNITS * more >= n
    requires Coalesced(before.free) && !HasFit(before.free, n) && Within(after.free, HEAP, after.heapEnd)
    ensures HasFit(after.free, n)
    ensures forall i :: 0 <= i < |after.free| && after.free[i].size >= n ==> after.free[i].End() == after.heapEnd
  {
    var free := before.free;
    var region := Block(start, PAGE_UNITS * more);
    var k := after.fpos;
    var at := if JoinsLower(free, k, region) then k else k + 1;
    InsertedOrOld(free, k, region, 0);
    assert Joined(free, k, region).size >= n && Joined(free, k, region).End() >= region.End();
    forall i | 0 <= i < |after.free| && after.free[i].size >= n
      ensures i == at - 1
    {
      InsertedOrOld(free, k, region, i);
    }
  }

  /** What malloc did when some free block was large enough: the first fit after freep lost its tail. */
  ghost predicate ServedFromList(before: Snap, after: Snap, n: nat, cut: int) {
    match before
    case Snap(mem, heapEnd, _, free, fpos, live, arena, granted) =>
      && KeepsUnits(mem, after.mem, LiveUnits(live))
      && 0 <= fpos <= |free|
      && FirstFit(free, fpos, n, after.fpos + 1)
      && cut == free[after.fpos].End() - n
      && after.free == Take(free, after.fpos, n)
      && cut !in live && after.live == live[cut := n]
      && after.heapEnd == heapEnd && after.arena == arena && after.granted == granted
  }

  /** A free list with the new region in it. */
  ghost predicate HoldsRegion(bs: seq<Block>, region: Block, grown: seq<Block>) {
    exists k :: Fits(bs, k, region) && grown == Insert(bs, k, region)
  }

  /** The last n units of the free block that ends the heap, number i, have been cut off. */
  ghost predicate LastTaken(grown: seq<Block>, n: nat, end: int, i: int, after: seq<Block>) {
    0 <= i < |grown| && grown[i].End() == end && grown[i].size >= n && after == Take(grown, i, n)
  }

  /** What malloc did when it had to grow: a region was added, and the request cut off its end. */
  ghost predicate ServedByGrowth(before: Snap, grown: seq<Block>, after: Snap, n: nat, cut: int) {
    match before
    case Snap(mem, heapEnd, _, free, _, live, arena, granted) =>
      var region := Block(heapEnd, PAGE_UNITS * PagesFor(n));
      && KeepsUnits(mem, after.mem, LiveUnits(live))
      && HoldsRegion(free, region, grown) && LastTaken(grown, n, region.End(), after.fpos, after.free)
      && after.heapEnd == region.End() == cut + n
      && cut !in live && after.live == live[cut := n]
      && after.arena == arena + Extent(region) && after.granted == granted + PagesFor(n)
  }

  /** The list is as it was; only the heap end may have moved. */
  ghost predicate SameList(before: Snap, after: Snap) {
    && after.free == before.free && after.fpos == before.fpos && after.live == before.live
    && after.arena == before.arena && after.granted == before.granted
    && KeepsUnits(before.mem, after.mem, LiveUnits(before.live))
  }

  /** The result of malloc for n units, with the given number of frames left before and used during the call:
      the first fit if there is one, else growth if the frames suffice, else NULL with the list as it was. */
  ghost predicate Outcome(before: Snap, after: Snap, n: nat, r: int, cut: int, grown: seq<Block>,
                          had: nat, used: nat) {
    match before
    case Snap(_, _, _, free, _, _, _, _) =>
      && (r != 0 ==> r == cut + 1)
      && if HasFit(free, n) then r != 0 && used == 0 && ServedFromList(before, after, n, cut)
         else
           && (r == 0 <==> had < PagesFor(n))
           && used == (if r == 0 then had else PagesFor(n))
           && (r == 0 ==> SameList(before, after))
           && (r != 0 ==> ServedByGrowth(before, grown, after, n, cut))
  }

  lemma FitOutcome(before: Snap, after: Snap, n: nat, r: int, cut: int, grown: seq<Block>, had: nat)
    requires ServedFromList(before, after, n, cut) && r == cut + 1 && r != 0
    ensures Outcome(before, after, n, r, cut, grown, had, 0)
  {
    assert before.free[after.fpos].size >= n;
  }

  lemma GrowthOutcome(before: Snap, mid: Snap, after: Snap, n: nat, r: int, cut: int, had: nat)
    requires Grown(before, mid, n) && ServedFromList(mid, after, n, cut) && r == cut + 1 && r != 0
    requires had >= PagesFor(n)
    ensures Outcome(before, after, n, r, cut, mid.free, had, PagesFor(n))
  {
    GrownThenServed(before, mid, after, n, cut);
  }

  lemma NullOutcome(before: Snap, after: Snap, n: nat, had: nat)
    requires !HasFit(before.free, n) && after == before.(heapEnd := after.heapEnd) && had < PagesFor(n)
    requires forall u :: u in LiveUnits(before.live) ==> u in before.mem
    ensures Outcome(before, after, n, 0, 0, [], had, had)
  {
  }

  /** The state between the two walks: the region is in the list and the request fits. */
  ghost predicate Grown(before: Snap, now: Snap, n: nat) {
    && RegionAdded(before, now, before.heapEnd, PagesFor(n))
    && !HasFit(before.free, n) && HasFit(now.free, n)
    && forall i :: 0 <= i < |now.free| && now.free[i].size >= n ==> now.free[i].End() == now.heapEnd
  }

  /** The first call's empty ring makes no difference to what the call does. */
  lemma OutcomeFromBase(before: Snap, start: Snap, after: Snap, n: nat, r: int, cut: int, grown: seq<Block>,
                        had: nat, used: nat)
    requires Outcome(start, after, n, r, cut, grown, had, used)
    requires start == before.(freep := start.freep, mem := start.mem) && before.live == map[]
    ensures Outcome(before, after, n, r, cut, grown, had, used)
  {
    assert LiveUnits(before.live) == {};
  }

  lemma GrownFromRegion(base: int, before: Snap, pages: nat, now: Snap, pages': nat, n: nat)
    requires Sound(base, before, pages) && Sound(base, now, pages') && !HasFit(before.free, n)
    requires RegionAdded(before, now, before.heapEnd, PagesFor(n))
    requires 1 <= n && n * 8 + 4095 < WORD
    ensures Grown(before, now, n)
  {
    PagesForPlain(n);
    RegionFits(before, now, before.heapEnd, PagesFor(n), n);
  }

  lemma KeepsTwice(m0: map<int, Header>, m1: map<int, Header>, m2: map<int, Header>, units: set<int>)
    requires KeepsUnits(m0, m1, units) && KeepsUnits(m1, m2, units)
    ensures KeepsUnits(m0, m2, units)
  {
  }

  lemma GrownThenServed(before: Snap, mid: Snap, after: Snap, n: nat, cut: int)
    requires Grown(before, mid, n) && ServedFromList(mid, after, n, cut)
    ensures ServedByGrowth(before, mid.free, after, n, cut)
  {
    KeepsTwice(before.mem, mid.mem, after.mem, LiveUnits(before.live));
    var region := Block(before.heapEnd, PAGE_UNITS * PagesFor(n));
    assert Fits(before.free, mid.fpos, region) && mid.free == Insert(before.free, mid.fpos, region);
    assert mid.free[after.fpos].size >= n;
  }

  /** What Carve writes. */
  function CarveMem(mem: map<int, Header>, prevp: int, p: int, n: nat): map<int, Header>
    requires prevp in mem && p in mem && mem[p].size >= n && p + mem[p].size - n in mem
  {
    if mem[p].size == n then mem[prevp := mem[prevp].(ptr := mem[p].ptr)]
    else
      var shrunk := mem[p := Header(mem[p].ptr, mem[p].size - n)];
      var cut := p + mem[p].size - n;
      shrunk[cut := shrunk[cut].(size := n)]
  }

  lemma CarvedRing(base: int, mem: map<int, Header>, free: seq<Block>, i: nat, n: nat, prevp: int, p: int, cut: int)
    requires Ring(mem, base, free) && Coalesced(free) && Above(base, free)
    requires i < |free| && 1 <= n <= free[i].size && p == free[i].addr && prevp == Node(base, free, i)
    requires cut == free[i].End() - n && cut in mem
    ensures prevp in mem && p in mem && mem[p].size == free[i].size && p + mem[p].size - n in mem
    ensures Linked(base, CarveMem(mem, prevp, p, n), Take(free, i, n), prevp, i)
  {
    assert NodeLinked(mem, base, free, i) && NodeLinked(mem, base, free, i + 1);
    if free[i].size == n {
      RingTakeAll(mem, base, free, i + 1);
    } else {
      RingTakeTail(mem, base, free, i + 1, n);
    }
  }

  lemma MoveUnits(from: set<int>, to: set<int>, moved: set<int>)
    requires from !! to && moved <= from
    ensures (from - moved) !! (to + moved) && (from - moved) + (to + moved) == from + to
  {
  }

  lemma CarvedAccounts(free: seq<Block>, live: map<int, int>, arena: set<int>, granted: nat, i: nat, n: nat, cut: int)
    requires Coalesced(free) && LiveApart(live) && Accounts(free, live, arena, granted)
    requires i < |free| && 1 <= n <= free[i].size && cut == free[i].End() - n
    ensures cut !in live && Coalesced(Take(free, i, n))
    ensures Accounts(Take(free, i, n), live[cut := n], arena, granted)
  {
    TakeKeepsOrder(free, i, n);
    TakeRemovesUnits(free, i, n);
    CutNotLive(free, live, i, n, cut);
    AddLive(live, cut, n);
    assert Tail(free[i], n) == Block(cut, n);
    MoveUnits(Units(free), LiveUnits(live), Extent(Block(cut, n)));
  }

  lemma CutNotLive(free: seq<Block>, live: map<int, int>, i: nat, n: nat, cut: int)
    requires Coalesced(free) && LiveApart(live) && Units(free) !! LiveUnits(live)
    requires i < |free| && 1 <= n <= free[i].size && cut == free[i].End() - n
    ensures cut !in live
  {
    assert free[i].Has(cut) && cut in Units(free);
    assert cut in live ==> Block(cut, live[cut]).Has(cut) && cut in LiveUnits(live);
  }

  lemma CarvedLayout(base: int, mem: map<int, Header>, heapEnd: int, free: seq<Block>, live: map<int, int>,
                     i: nat, n: nat, prevp: int, p: int, cut: int)
    requires Layout(base, mem, heapEnd, free, live) && Ring(mem, base, free) && Units(free) !! LiveUnits(live)
    requires i < |free| && 1 <= n <= free[i].size && cut !in live
    requires prevp == Node(base, free, i) && p == free[i].addr && cut == free[i].End() - n
    ensures prevp in mem && p in mem && mem[p].size == free[i].size && cut == p + mem[p].size - n && cut in mem
    ensures Layout(base, CarveMem(mem, prevp, p, n), heapEnd, Take(free, i, n), live[cut := n])
  {
    assert NodeLinked(mem, base, free, i) && NodeLinked(mem, base, free, i + 1);
    TakeKeepsOrder(free, i, n);
    CarvedLive(free, live, i, n, cut);
    CarvedHeaders(base, mem, free, live, i, n, prevp, p, cut);
    CarvedWithin(free, i, n, HEAP, heapEnd);
  }

  lemma CarvedWithin(bs: seq<Block>, i: nat, n: nat, lo: int, hi: int)
    requires Within(bs, lo, hi) && i < |bs| && 1 <= n <= bs[i].size
    ensures Within(Take(bs, i, n), lo, hi)
  {
  }

  lemma CarvedHeaders(base: int, mem: map<int, Header>, free: seq<Block>, live: map<int, int>, i: nat, n: nat,
                      prevp: int, p: int, cut: int)
    requires Coalesced(free) && LiveApart(live) && Units(free) !! LiveUnits(live)
    requires forall b :: b in live ==> base < b && b in mem
    requires i < |free| && 1 <= n <= free[i].size && cut !in live
    requires prevp == Node(base, free, i) && p == free[i].addr && cut == free[i].End() - n
    requires prevp in mem && p in mem && mem[p].size == free[i].size && cut in mem
    ensures forall b :: b in live ==> CarveMem(mem, prevp, p, n)[b] == mem[b]
    ensures CarveMem(mem, prevp, p, n)[cut].size == n
  {
    NodesNotLive(base, free, live, i);
    NodesNotLive(base, free, live, i + 1);
  }

  lemma CarvedLive(free: seq<Block>, live: map<int, int>, i: nat, n: nat, cut: int)
    requires Coalesced(free) && LiveApart(live) && Units(free) !! LiveUnits(live)
    requires i < |free| && 1 <= n <= free[i].size && cut == free[i].End() - n && cut !in live
    ensures LiveApart(live[cut := n])
  {
    var b := Tail(free[i], n);
    assert Extent(b) <= Units(free) by { TakeRemovesUnits(free, i, n); }
    forall c | c in live
      ensures c + live[c] <= b.addr || b.End() <= c
    {
      var u := if c < b.addr then b.addr else c;
      assert Block(c, live[c]).Has(u) ==> u in LiveUnits(live);
      assert b.Has(u) ==> u in Extent(b);
    }
  }

  lemma CarvedKeeps(base: int, mem: map<int, Header>, heapEnd: int, free: seq<Block>, live: map<int, int>,
                    i: nat, n: nat, prevp: int, p: int, cut: int)
    requires Layout(base, mem, heapEnd, free, live) && Ring(mem, base, free) && Units(free) !! LiveUnits(live)
    requires i < |free| && 1 <= n <= free[i].size && p == free[i].addr && prevp == Node(base, free, i)
    requires cut == free[i].End() - n
    ensures prevp in mem && p in mem && mem[p].size == free[i].size && cut in mem
    ensures KeepsUnits(mem, CarveMem(mem, prevp, p, n), LiveUnits(live))
  {
    assert NodeLinked(mem, base, free, i) && NodeLinked(mem, base, free, i + 1);
    LiveUnitsMapped(base, mem, heapEnd, free, live);
    NodeNotLiveUnit(base, free, live, i);
    NodeNotLiveUnit(base, free, live, i + 1);
    assert free[i].Has(cut) && cut in Units(free);
    CarveMemKeeps(mem, prevp, p, n, cut, LiveUnits(live));
  }

  lemma CarveMemKeeps(mem: map<int, Header>, prevp: int, p: int, n: nat, cut: int, units: set<int>)
    requires prevp in mem && p in mem && mem[p].size >= n && cut == p + mem[p].size - n && cut in mem
    requires prevp !in units && p !in units && cut !in units && forall u :: u in units ==> u in mem
    ensures KeepsUnits(mem, CarveMem(mem, prevp, p, n), units)
  {
  }

  lemma CarvedSound(base: int, s: Snap, pages: nat, prevp: int, p: int, n: nat, i: nat, cut: int)
    requires Sound(base, s, pages) && s.freep != 0
    requires i < |s.free| && 1 <= n <= s.free[i].size && p == s.free[i].addr && prevp == Node(base, s.free, i)
    requires cut == s.free[i].End() - n
    ensures CanCarve(s, base, prevp, p, n, i, cut) && cut !in s.live
    ensures Sound(base, Carved(s, base, prevp, p, n, i, cut), pages) && prevp != 0
    ensures KeepsUnits(s.mem, Carved(s, base, prevp, p, n, i, cut).mem, LiveUnits(s.live))
  {
    CarvedKeeps(base, s.mem, s.heapEnd, s.free, s.live, i, n, prevp, p, cut);
    CarvedAccounts(s.free, s.live, s.arena, s.granted, i, n, cut);
    CarvedRing(base, s.mem, s.free, i, n, prevp, p, cut);
    CarvedLayout(base, s.mem, s.heapEnd, s.free, s.live, i, n, prevp, p, cut);
  }

  lemma GrownSound(base: int, s: Snap, pages: nat, more: nat)
    requires Sound(base, s, pages) && s.freep != 0
    requires HEAP + PAGE_UNITS * (pages + more) < LIMIT
    ensures Sound(base, s.(heapEnd := HEAP + PAGE_UNITS * (pages + more)), pages + more)
  {
  }

  ghost predicate AllBelow(units: set<int>, end: int) {
    forall u :: u in units ==> u < end
  }

  lemma ArenaBelow(base: int, s: Snap, pages: nat)
    requires Sound(base, s, pages)
    ensures AllBelow(s.arena, s.heapEnd)
  {
  }

  lemma LiveUnitsMapped(base: int, mem: map<int, Header>, heapEnd: int, free: seq<Block>, live: map<int, int>)
    requires Layout(base, mem, heapEnd, free, live)
    ensures forall u :: u in LiveUnits(live) ==> u in mem && base < u
  {
  }

  lemma NodeNotLiveUnit(base: int, bs: seq<Block>, live: map<int, int>, i: int)
    requires 0 <= i <= |bs| && Coalesced(bs) && Units(bs) !! LiveUnits(live)
    requires forall u :: u in LiveUnits(live) ==> base < u
    ensures Node(base, bs, i) !in LiveUnits(live)
  {
    assert i > 0 ==> bs[i - 1].Has(Node(base, bs, i)) && Node(base, bs, i) in Units(bs);
  }

  lemma FreedKeeps(base: int, mem: map<int, Header>, heapEnd: int, free: seq<Block>, live: map<int, int>,
                   k: int, bp: int)
    requires Layout(base, mem, heapEnd, free, live) && Ring(mem, base, free)
    requires Units(free) !! LiveUnits(live) && bp in live && 0 <= k <= |free|
    ensures var p := Node(base, free, k);
            && p in mem && mem[p].ptr in mem
            && KeepsUnits(mem, JoinLower(JoinUpper(mem, p, bp), p, bp), LiveUnits(live - {bp}))
  {
    assert NodeLinked(mem, base, free, k) && NodeLinked(mem, base, free, Next(free, k));
    NodeNotLiveUnit(base, free, live, k);
    DropLive(live, bp);
    assert Block(bp, live[bp]).Has(bp);
  }

  lemma FreedSound(base: int, s: Snap, pages: nat, bp: int, k: int)
    requires Sound(base, s, pages) && s.freep != 0
    requires bp in s.live && Fits(s.free, k, Block(bp, s.live[bp]))
    ensures CanFree(s, base, Node(base, s.free, k), bp, k)
    ensures Sound(base, Freed(s, base, Node(base, s.free, k), bp, k), pages) && Node(base, s.free, k) != 0
    ensures KeepsUnits(s.mem, Freed(s, base, Node(base, s.free, k), bp, k).mem, LiveUnits(s.live - {bp}))
  {
    FreedKeeps(base, s.mem, s.heapEnd, s.free, s.live, k, bp);
    FreedLayout(base, s.mem, s.heapEnd, s.free, s.live, k, Block(bp, s.live[bp]));
    FreedAccounts(s.live, s.free, k, Block(bp, s.live[bp]));
  }

  /** Free's three writes keep the layout and the ring. */
  lemma FreedLayout(base: int, mem: map<int, Header>, heapEnd: int, free: seq<Block>, live: map<int, int>,
                    k: int, b: Block)
    requires Layout(base, mem, heapEnd, free, live) && Ring(mem, base, free)
    requires Units(free) !! LiveUnits(live)
    requires b.addr in live && live[b.addr] == b.size && Fits(free, k, b)
    ensures var p := Node(base, free, k);
            && p in mem && b.addr in mem && mem[p].ptr in mem && p != b.addr
            && var after := JoinLower(JoinUpper(mem, p, b.addr), p, b.addr);
            && Layout(base, after, heapEnd, Insert(free, k, b), live - {b.addr})
            && Linked(base, after, Insert(free, k, b), p, k)
  {
    assert NodeLinked(mem, base, free, k) && NodeLinked(mem, base, free, Next(free, k));
    RingInsert(mem, base, free, k, b);
    NodesNotLive(base, free, live, k);
    InsertKeepsOrder(free, k, b);
    DropLive(live, b.addr);
    FreedWithin(free, k, b, HEAP, heapEnd);
    NodesOfInsert(base, free, k, b, k);
  }

  lemma NodesNotLive(base: int, bs: seq<Block>, live: map<int, int>, i: int)
    requires 0 <= i <= |bs| && Coalesced(bs) && LiveApart(live) && Units(bs) !! LiveUnits(live)
    requires forall b :: b in live ==> base < b
    ensures Node(base, bs, i) !in live
  {
    var a := Node(base, bs, i);
    assert i > 0 ==> bs[i - 1].Has(a) && a in Units(bs);
    assert a in live ==> Block(a, live[a]).Has(a) && a in LiveUnits(live);
  }

  lemma FreedWithin(bs: seq<Block>, k: int, b: Block, lo: int, hi: int)
    requires Fits(bs, k, b) && Within(bs, lo, hi) && lo <= b.addr && b.End() <= hi
    ensures Within(Insert(bs, k, b), lo, hi)
  {
    var r := Insert(bs, k, b);
    forall i | 0 <= i < |r|
      ensures lo <= r[i].addr && r[i].End() <= hi
    {
      NodesOfInsert(0, bs, k, b, i + 1);
    }
  }

  /** A freed block's units move from the live side to the free side. */
  lemma FreedAccounts(live: map<int, int>, free: seq<Block>, k: int, b: Block)
    requires Coalesced(free) && Fits(free, k, b) && LiveApart(live)
    requires b.addr in live && live[b.addr] == b.size
    requires Units(free) !! LiveUnits(live)
    ensures Coalesced(Insert(free, k, b)) && LiveApart(live - {b.addr})
    ensures Units(Insert(free, k, b)) == Units(free) + Extent(b)
    ensures Units(Insert(free, k, b)) !! LiveUnits(live - {b.addr})
    ensures Units(Insert(free, k, b)) + LiveUnits(live - {b.addr}) == Units(free) + LiveUnits(live)
  {
    InsertKeepsOrder(free, k, b);
    InsertAddsUnits(free, k, b);
    DropLive(live, b.addr);
    MoveUnits(LiveUnits(live), Units(free), Extent(b));
  }

  lemma BackingBound(backing: seq<nat>)
    requires Distinct(backing) && forall i :: 0 <= i < |backing| ==> backing[i] < FRAMES
    ensures |backing| <= FRAMES
  {
    var used := set i | 0 <= i < |backing| :: backing[i];
    DistinctCount(backing);
    var all := set f: nat | f < FRAMES && f in used;
    FramesBelow(used, FRAMES);
  }

  lemma {:induction false} DistinctCount(s: seq<nat>)
    requires Distinct(s)
    ensures |set i | 0 <= i < |s| :: s[i]| == |s|
  {
    if s != [] {
      var last := |s| - 1;
      DistinctCount(s[..last]);
      var front := set i | 0 <= i < |s[..last]| :: s[..last][i];
      assert forall i :: 0 <= i < last ==> s[..last][i] == s[i] && s[i] in front;
      assert (set i | 0 <= i < |s| :: s[i]) == front + {s[last]};
      assert s[last] !in front;
    }
  }

  lemma {:induction false} FramesBelow(used: set<nat>, n: nat)
    requires forall f :: f in used ==> f < n
    ensures |used| <= n
  {
    if n == 0 {
      assert used == {};
    } else {
      FramesBelow(used - {n - 1}, n - 1);
    }
  }

  lemma LiveBelow(free: seq<Block>, live: map<int, int>, arena: set<int>, granted: nat, start: int)
    requires Accounts(free, live, arena, granted) && LiveApart(live) && Coalesced(free)
    requires forall u :: u in arena ==> u < start
    ensures forall b :: b in live ==> b + live[b] <= start && b < start
    ensures forall i :: 0 <= i < |free| ==> free[i].addr < start
  {
    forall b | b in live
      ensures b + live[b] <= start && b < start
    {
      assert Block(b, live[b]).Has(b + live[b] - 1) && b + live[b] - 1 in LiveUnits(live);
    }
    forall i | 0 <= i < |free|
      ensures free[i].addr < start
    {
      assert free[i].Has(free[i].addr) && free[i].addr in Units(free);
    }
  }

  lemma RegionAccounts(free: seq<Block>, live: map<int, int>, arena: set<int>, granted: nat, start: int, pages: nat)
    requires Accounts(free, live, arena, granted) && pages >= 1 && start !in live
    requires forall u :: u in arena ==> u < start
    ensures Accounts(free, live[start := PAGE_UNITS * pages],
                     arena + Extent(Block(start, PAGE_UNITS * pages)), granted + pages)
  {
    var region := Extent(Block(start, PAGE_UNITS * pages));
    AddLive(live, start, PAGE_UNITS * pages);
    ExtentSize(Block(start, PAGE_UNITS * pages));
    assert arena !! region;
    assert |arena + region| == |arena| + |region|;
  }

  function RegionMem(mem: map<int, Header>, start: int, pages: nat): map<int, Header>
    requires start in mem
  {
    mem[start := mem[start].(size := PAGE_UNITS * pages)]
  }

  lemma RegionRing(base: int, mem: map<int, Header>, free: seq<Block>, start: int, pages: nat)
    requires Ring(mem, base, free) && start in mem && base < start
    requires forall i :: 0 <= i < |free| ==> free[i].addr < start
    ensures Ring(RegionMem(mem, start, pages), base, free)
  {
    forall i | 0 <= i <= |free|
      ensures NodeLinked(RegionMem(mem, start, pages), base, free, i)
    {
      assert NodeLinked(mem, base, free, i);
    }
  }

  lemma LiveExtended(live: map<int, int>, b: int, n: int)
    requires LiveApart(live) && n >= 1
    requires forall c :: c in live ==> c + live[c] <= b && c < b
    ensures LiveApart(live[b := n]) && live[b := n] - {b} == live
  {
    assert live[b := n] - {b} == live;
  }

  lemma RegionLayout(base: int, mem: map<int, Header>, heapEnd: int, free: seq<Block>, live: map<int, int>,
                     start: int, pages: nat)
    requires Layout(base, mem, heapEnd, free, live) && pages >= 1
    requires HEAP <= start && start + PAGE_UNITS * pages == heapEnd
    requires forall c :: c in live ==> c + live[c] <= start && c < start
    ensures start in mem
    ensures Layout(base, RegionMem(mem, start, pages), heapEnd, free, live[start := PAGE_UNITS * pages])
  {
    LiveExtended(live, start, PAGE_UNITS * pages);
  }

  /** A region above everything granted so far can be counted as one live block. */
  lemma ReservedSound(base: int, s: Snap, pages: nat, start: int, more: nat)
    requires Sound(base, s, pages) && s.freep != 0 && more >= 1
    requires HEAP <= start && start + PAGE_UNITS * more == s.heapEnd
    requires AllBelow(s.arena, start)
    ensures start in s.mem && start !in s.live && Sound(base, Reserved(s, start, more), pages)
    ensures Reserved(s, start, more).live - {start} == s.live
    ensures KeepsUnits(s.mem, Reserved(s, start, more).mem, LiveUnits(s.live))
  {
    LiveUnitsMapped(base, s.mem, s.heapEnd, s.free, s.live);
    assert start !in s.arena;
    LiveBelow(s.free, s.live, s.arena, s.granted, start);
    LiveExtended(s.live, start, PAGE_UNITS * more);
    RegionLayout(base, s.mem, s.heapEnd, s.free, s.live, start, more);
    RegionAccounts(s.free, s.live, s.arena, s.granted, start, more);
    RegionRing(base, s.mem, s.free, start, more);
  }

  /** Whatever the owner of a live block writes above its header, the heap stays sound. */
  lemma PayloadSound(base: int, s: Snap, pages: nat, b: int, u: int, w: Header)
    requires Sound(base, s, pages) && b in s.live && b < u < b + s.live[b]
    ensures Sound(base, s.(mem := s.mem[u := w]), pages)
  {
    var mem := s.mem[u := w];
    LiveUnitsMapped(base, s.mem, s.heapEnd, s.free, s.live);
    assert Block(b, s.live[b]).Has(u) && u in LiveUnits(s.live);
    if s.freep != 0 {
      forall i | 0 <= i <= |s.free|
        ensures NodeLinked(mem, base, s.free, i)
      {
        NodeNotLiveUnit(base, s.free, s.live, i);
        assert NodeLinked(s.mem, base, s.free, i);
      }
    }
  }
}
