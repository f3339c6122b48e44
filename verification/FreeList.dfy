/** The free list of the kernel heap as a value: address-ordered blocks of 8-byte units. */
module FreeList {

  /** A run of units. A block's first unit is its header. */
  datatype Block = Block(addr: int, size: int) {
    function End(): int { addr + size }
    predicate Has(u: int) { addr <= u < End() }
  }

  ghost function Extent(b: Block): set<int> {
    set u | b.addr <= u < b.End() && b.Has(u)
  }

  /** The units held by the blocks of a list. */
  ghost function Units(bs: seq<Block>): set<int> {
    set i, u | 0 <= i < |bs| && bs[i].addr <= u < bs[i].End() && bs[i].Has(u) :: u
  }

  /** Address order, with a gap of at least one unit between neighbours: nothing is left to join. */
  ghost predicate Coalesced(bs: seq<Block>) {
    && (forall i :: 0 <= i < |bs| ==> bs[i].size >= 1)
    && (forall i, j :: 0 <= i < j < |bs| ==> bs[i].End() < bs[j].addr)
  }

  ghost predicate Within(bs: seq<Block>, lo: int, hi: int) {
    forall i :: 0 <= i < |bs| ==> lo <= bs[i].addr && bs[i].End() <= hi
  }

  lemma UnitsConcat(a: seq<Block>, b: seq<Block>)
    ensures Units(a + b) == Units(a) + Units(b)
  {
    var c := a + b;
    forall u | u in Units(a) + Units(b)
      ensures u in Units(c)
    {
      if u in Units(a) {
        var i :| 0 <= i < |a| && a[i].Has(u);
        assert c[i].Has(u);
      } else {
        var i :| 0 <= i < |b| && b[i].Has(u);
        assert c[|a| + i].Has(u);
      }
    }
  }

  // ----- A coalesced list is determined by the set of units it holds

  lemma TailUnitsAbove(bs: seq<Block>)
    requires |bs| > 0 && Coalesced(bs)
    ensures Coalesced(bs[1..])
    ensures forall u :: u in Units(bs[1..]) ==> u > bs[0].End()
  {
    assert forall i :: 1 <= i < |bs| ==> bs[i] == bs[1..][i - 1];
  }

  lemma FirstUnit(bs: seq<Block>)
    requires |bs| > 0 && Coalesced(bs)
    ensures bs[0].addr in Units(bs)
    ensures forall u :: u in Units(bs) ==> bs[0].addr <= u
  {
    assert bs[0].Has(bs[0].addr);
  }

  lemma {:induction false} Canonical(a: seq<Block>, b: seq<Block>)
    requires Coalesced(a) && Coalesced(b)
    requires Units(a) == Units(b)
    ensures a == b
  {
    if |a| > 0 { FirstUnit(a); }
    if |b| > 0 { FirstUnit(b); }
    if |a| > 0 && |b| > 0 {
      TailUnitsAbove(a);
      TailUnitsAbove(b);
      FirstBlocksAgree(a, b);
      assert Units(a[1..]) == Units(a) - Extent(a[0]);
      assert Units(b[1..]) == Units(b) - Extent(b[0]);
      Canonical(a[1..], b[1..]);
      assert a == [a[0]] + a[1..];
      assert b == [b[0]] + b[1..];
    }
  }

  lemma FirstBlocksAgree(a: seq<Block>, b: seq<Block>)
    requires |a| > 0 && |b| > 0 && Coalesced(a) && Coalesced(b)
    requires Units(a) == Units(b)
    ensures a[0] == b[0]
  {
    FirstUnit(a);
    FirstUnit(b);
    TailUnitsAbove(a);
    TailUnitsAbove(b);
    assert a[0].End() !in Units(a) && b[0].End() !in Units(b);
    assert !b[0].Has(a[0].End()) && !a[0].Has(b[0].End());
  }

  // ----- Replacing part of a list by one block

  ghost function Splice(bs: seq<Block>, i: int, j: int, x: Block): seq<Block>
    requires 0 <= i <= j <= |bs|
  {
    bs[..i] + [x] + bs[j..]
  }

  lemma SpliceKeepsOrder(bs: seq<Block>, i: int, j: int, x: Block)
    requires Coalesced(bs) && 0 <= i <= j <= |bs| && x.size >= 1
    requires i > 0 ==> bs[i - 1].End() < x.addr
    requires j < |bs| ==> x.End() < bs[j].addr
    ensures Coalesced(Splice(bs, i, j, x))
  {
    var r, shift := Splice(bs, i, j, x), j - i - 1;
    forall k | 0 <= k < i
      ensures r[k] == bs[k] && r[k].End() < x.addr
    {
      assert bs[k].End() <= bs[i - 1].End();
    }
    forall k | i < k < |r|
      ensures r[k] == bs[k + shift] && x.End() < r[k].addr
    {
      assert bs[j].addr <= bs[k + shift].addr;
    }
  }

  lemma SpliceUnits(bs: seq<Block>, i: int, j: int, x: Block)
    requires 0 <= i <= j <= |bs|
    ensures Units(Splice(bs, i, j, x)) == Units(bs[..i]) + Extent(x) + Units(bs[j..])
    ensures Units(bs) == Units(bs[..i]) + Units(bs[i..j]) + Units(bs[j..])
  {
    UnitsConcat(bs[..i] + [x], bs[j..]);
    UnitsConcat(bs[..i], [x]);
    assert Units([x]) == Extent(x);
    UnitsConcat(bs[..i], bs[i..j]);
    UnitsConcat(bs[..j], bs[j..]);
    assert bs[..i] + bs[i..j] == bs[..j];
    assert bs[..j] + bs[j..] == bs;
  }

  // ----- Giving a block back

  /** Block b lies between the first k blocks and the rest, overlapping none. */
  ghost predicate Fits(bs: seq<Block>, k: int, b: Block) {
    && 0 <= k <= |bs|
    && b.size >= 1
    && (forall i :: 0 <= i < k ==> bs[i].End() <= b.addr)
    && (forall i :: k <= i < |bs| ==> b.End() <= bs[i].addr)
  }

  ghost predicate JoinsLower(bs: seq<Block>, k: int, b: Block)
    requires 0 <= k <= |bs|
  {
    k > 0 && bs[k - 1].End() == b.addr
  }

  ghost predicate JoinsUpper(bs: seq<Block>, k: int, b: Block)
    requires 0 <= k <= |bs|
  {
    k < |bs| && b.End() == bs[k].addr
  }

  /** Block b together with the neighbours it touches. */
  ghost function Joined(bs: seq<Block>, k: int, b: Block): Block
    requires 0 <= k <= |bs|
  {
    var lo := if JoinsLower(bs, k, b) then bs[k - 1].addr else b.addr;
    var hi := if JoinsUpper(bs, k, b) then bs[k].End() else b.End();
    Block(lo, hi - lo)
  }

  /** Put b at position k, joined to the neighbours it touches. */
  ghost function Insert(bs: seq<Block>, k: int, b: Block): seq<Block>
    requires 0 <= k <= |bs|
  {
    Splice(bs, if JoinsLower(bs, k, b) then k - 1 else k,
               if JoinsUpper(bs, k, b) then k + 1 else k, Joined(bs, k, b))
  }

  lemma InsertKeepsOrder(bs: seq<Block>, k: int, b: Block)
    requires Coalesced(bs) && Fits(bs, k, b)
    ensures Coalesced(Insert(bs, k, b))
  {
    SpliceKeepsOrder(bs, if JoinsLower(bs, k, b) then k - 1 else k,
                     if JoinsUpper(bs, k, b) then k + 1 else k, Joined(bs, k, b));
  }

  lemma ExtentConcat(a: Block, b: Block, c: Block)
    requires a.End() == b.addr && b.size >= 0 && a.size >= 0
    requires c.addr == a.addr && c.End() == b.End()
    ensures Extent(c) == Extent(a) + Extent(b)
  {
    assert forall u :: c.Has(u) <==> a.Has(u) || b.Has(u);
  }

  lemma JoinedExtent(bs: seq<Block>, k: int, b: Block)
    requires Coalesced(bs) && Fits(bs, k, b)
    ensures var lo := if JoinsLower(bs, k, b) then k - 1 else k;
            var hi := if JoinsUpper(bs, k, b) then k + 1 else k;
            Extent(Joined(bs, k, b)) == Units(bs[lo..hi]) + Extent(b)
  {
    var below, above := JoinsLower(bs, k, b), JoinsUpper(bs, k, b);
    if below && above {
      var lower := Block(bs[k - 1].addr, bs[k - 1].size + b.size);
      ExtentConcat(bs[k - 1], b, lower);
      ExtentConcat(lower, bs[k], Joined(bs, k, b));
      assert bs[k - 1..k + 1] == [bs[k - 1]] + [bs[k]];
      UnitsConcat([bs[k - 1]], [bs[k]]);
      UnitsSingle(bs[k - 1]);
      UnitsSingle(bs[k]);
    } else if below {
      ExtentConcat(bs[k - 1], b, Joined(bs, k, b));
      assert bs[k - 1..k] == [bs[k - 1]];
      UnitsSingle(bs[k - 1]);
    } else if above {
      ExtentConcat(b, bs[k], Joined(bs, k, b));
      assert bs[k..k + 1] == [bs[k]];
      UnitsSingle(bs[k]);
    }
  }

  lemma UnitsSingle(b: Block)
    ensures Units([b]) == Extent(b)
  {
    assert forall u :: b.Has(u) ==> [b][0].Has(u);
  }

  lemma InsertAddsUnits(bs: seq<Block>, k: int, b: Block)
    requires Coalesced(bs) && Fits(bs, k, b)
    ensures Units(Insert(bs, k, b)) == Units(bs) + Extent(b)
  {
    var lo := if JoinsLower(bs, k, b) then k - 1 else k;
    var hi := if JoinsUpper(bs, k, b) then k + 1 else k;
    SpliceUnits(bs, lo, hi, Joined(bs, k, b));
    JoinedExtent(bs, k, b);
  }

  // ----- Handing a block out

  /** Cut the last n units off block i, dropping the block when nothing is left. */
  ghost function Take(bs: seq<Block>, i: int, n: int): seq<Block>
    requires 0 <= i < |bs|
  {
    if bs[i].size == n then bs[..i] + bs[i + 1..]
    else Splice(bs, i, i + 1, Block(bs[i].addr, bs[i].size - n))
  }

  /** The units that Take cuts off. */
  ghost function Tail(b: Block, n: int): Block { Block(b.End() - n, n) }

  lemma TakeKeepsOrder(bs: seq<Block>, i: int, n: int)
    requires Coalesced(bs) && 0 <= i < |bs| && 1 <= n <= bs[i].size
    ensures Coalesced(Take(bs, i, n))
  {
    if bs[i].size != n {
      SpliceKeepsOrder(bs, i, i + 1, Block(bs[i].addr, bs[i].size - n));
    }
  }

  lemma OthersDisjoint(bs: seq<Block>, i: int)
    requires Coalesced(bs) && 0 <= i < |bs|
    ensures Units(bs[..i]) !! Extent(bs[i])
    ensures Units(bs[i + 1..]) !! Extent(bs[i])
  {
    assert forall j :: 0 <= j < i ==> bs[..i][j].End() < bs[i].addr;
    var above := bs[i + 1..];
    assert forall j :: 0 <= j < |above| ==> bs[i].End() < above[j].addr;
  }

  lemma TakeRemovesUnits(bs: seq<Block>, i: int, n: int)
    requires Coalesced(bs) && 0 <= i < |bs| && 1 <= n <= bs[i].size
    ensures Units(Take(bs, i, n)) == Units(bs) - Extent(Tail(bs[i], n))
    ensures Extent(Tail(bs[i], n)) <= Units(bs)
  {
    var head := Block(bs[i].addr, bs[i].size - n);
    SpliceUnits(bs, i, i + 1, head);
    UnitsConcat(bs[..i], bs[i + 1..]);
    assert bs[i..i + 1] == [bs[i]];
    UnitsSingle(bs[i]);
    OthersDisjoint(bs, i);
    ExtentConcat(head, Tail(bs[i], n), bs[i]);
    assert Extent(head) !! Extent(Tail(bs[i], n));
    if bs[i].size == n {
      assert Extent(head) == {};
    }
  }

  /** Taking a block out and giving the same block back restores the list itself. */
  lemma TakeThenInsert(bs: seq<Block>, i: int, n: int, k: int)
    requires Coalesced(bs) && 0 <= i < |bs| && 1 <= n <= bs[i].size
    requires Fits(Take(bs, i, n), k, Tail(bs[i], n))
    ensures Insert(Take(bs, i, n), k, Tail(bs[i], n)) == bs
  {
    var b := Tail(bs[i], n);
    TakeKeepsOrder(bs, i, n);
    TakeRemovesUnits(bs, i, n);
    InsertKeepsOrder(Take(bs, i, n), k, b);
    InsertAddsUnits(Take(bs, i, n), k, b);
    Canonical(Insert(Take(bs, i, n), k, b), bs);
  }

  // ----- Counting units

  ghost function SizeSum(bs: seq<Block>): int {
    if bs == [] then 0 else bs[0].size + SizeSum(bs[1..])
  }

  lemma {:induction false} ExtentSize(b: Block)
    requires b.size >= 0
    ensures |Extent(b)| == b.size
    decreases b.size
  {
    if b.size == 0 {
      assert Extent(b) == {};
    } else {
      var shorter := Block(b.addr, b.size - 1);
      ExtentSize(shorter);
      assert Extent(b) == Extent(shorter) + {b.End() - 1};
    }
  }

  lemma {:induction false} UnitsCount(bs: seq<Block>)
    requires Coalesced(bs)
    ensures |Units(bs)| == SizeSum(bs)
  {
    if bs != [] {
      TailUnitsAbove(bs);
      UnitsCount(bs[1..]);
      ExtentSize(bs[0]);
      assert bs == [bs[0]] + bs[1..];
      UnitsConcat([bs[0]], bs[1..]);
      UnitsSingle(bs[0]);
      assert Extent(bs[0]) !! Units(bs[1..]);
      assert |Extent(bs[0]) + Units(bs[1..])| == |Extent(bs[0])| + |Units(bs[1..])|;
    }
  }
}
