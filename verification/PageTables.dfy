/** Two-level 32-bit paging as a value: physical frames of 1024 words, and the walk the CPU makes. */
module PageTables {
  import opened Wrappers

  const PAGE := 4096
  const KERNEL_BASE := 0xC000_0000
  const ADDRESSES := 0x1_0000_0000

  /** Physical memory by frame number. */
  type Memory = map<nat, seq<nat>>

  ghost predicate IsFrame(mem: Memory, f: nat) {
    f in mem && |mem[f]| == 1024
  }

  ghost function SetWord(mem: Memory, f: nat, i: nat, w: nat): Memory
    requires IsFrame(mem, f) && i < 1024
  {
    var words: seq<nat> := mem[f][i := w];
    mem[f := words]
  }

  /** Directory slot of an address: v >> 22. */
  function Slot(v: nat): nat { v / 0x40_0000 }

  /** Table entry of an address: (v >> 12) & 0x3FF. */
  function Entry(v: nat): nat { v / PAGE % 1024 }

  /** a | 3 */
  function Or3(a: nat): nat { a - a % 4 + 3 }

  /** a | 7 */
  function Or7(a: nat): nat { a - a % 8 + 7 }

  function Present(e: nat): bool { e % 2 == 1 }

  /** One table entry resolves an address of its page. */
  ghost function Leaf(e: nat, v: nat): Option<nat> {
    if Present(e) then Some(e / PAGE * PAGE + v % PAGE) else None
  }

  /** The CPU's walk from directory frame dir (Intel SDM Vol. 3A, section 4.3, with 4-KByte pages). */
  ghost function Translate(mem: Memory, dir: nat, v: nat): Option<nat>
    requires IsFrame(mem, dir) && v < ADDRESSES
  {
    var pde := mem[dir][Slot(v)];
    if !Present(pde) || !IsFrame(mem, pde / PAGE) then None
    else Leaf(mem[pde / PAGE][Entry(v)], v)
  }

  /** The low two or three bits are set and the others are kept. */
  lemma FlagBits(a: nat)
    ensures Or3(a) % 4 == 3 && Or3(a) / 4 == a / 4
    ensures Or7(a) % 8 == 7 && Or7(a) / 8 == a / 8
  {
  }

  lemma EntryFields(frame: nat, flags: nat)
    requires flags == 3 || flags == 7
    ensures var e := frame * PAGE + flags; Present(e) && e / PAGE == frame && e - e % PAGE == frame * PAGE
    ensures Or3(frame * PAGE) == frame * PAGE + 3 && Or7(frame * PAGE) == frame * PAGE + 7
  {
  }

  lemma PageOffset(q: nat, r: nat)
    requires r < PAGE
    ensures (q * PAGE + r) / PAGE == q
  {
  }

  /** The page of byte low of word number y, for words of k bytes. */
  lemma PageOfWord(y: nat, k: nat, low: nat)
    requires (k == 4 || k == 8) && low < k
    ensures (k * y + low) / PAGE == y / (PAGE / k)
  {
    if k == 4 {
      var q, x := y / 1024, y % 1024;
      assert 4 * y + low == q * PAGE + (4 * x + low);
      PageOffset(q, 4 * x + low);
    } else {
      var q, x := y / 512, y % 512;
      assert 8 * y + low == q * PAGE + (8 * x + low);
      PageOffset(q, 8 * x + low);
    }
  }

  lemma OddIsPresent(y: nat)
    ensures Present(2 * y + 1)
  {
  }

  lemma Or3InPage(a: nat)
    ensures Or3(a) / PAGE == a / PAGE && Present(Or3(a))
  {
    var y, low := a / 4, a % 4;
    PageOfWord(y, 4, low);
    PageOfWord(y, 4, 3);
    OddIsPresent(2 * y + 1);
  }

  lemma Or7InPage(a: nat)
    ensures Or7(a) / PAGE == a / PAGE && Present(Or7(a))
  {
    var y, low := a / 8, a % 8;
    PageOfWord(y, 8, low);
    PageOfWord(y, 8, 7);
    OddIsPresent(4 * y + 3);
  }

  lemma FlagsKeepFrame(a: nat)
    ensures Or3(a) / PAGE == a / PAGE && Or7(a) / PAGE == a / PAGE
    ensures Present(Or3(a)) && Present(Or7(a))
  {
    Or3InPage(a);
    Or7InPage(a);
  }

  // ----- The kernel's directory: every present slot shares the one table

  /** What the kernel mapping amounts to: the present slots and the shared table. */
  datatype View = View(slots: set<nat>, table: seq<nat>)

  ghost predicate Shared(mem: Memory, dir: nat, tab: nat) {
    && dir != tab && IsFrame(mem, dir) && IsFrame(mem, tab)
    && forall s :: 0 <= s < 1024 && Present(mem[dir][s]) ==> mem[dir][s] == Or3(tab * PAGE)
  }

  ghost function PresentSlots(directory: seq<nat>): set<nat>
    requires |directory| == 1024
  {
    set s: nat | s < 1024 && Present(directory[s])
  }

  ghost function ViewOf(mem: Memory, dir: nat, tab: nat): View
    requires Shared(mem, dir, tab)
  {
    View(PresentSlots(mem[dir]), mem[tab])
  }

  ghost function Resolve(view: View, v: nat): Option<nat>
    requires |view.table| == 1024
  {
    if Slot(v) in view.slots then Leaf(view.table[Entry(v)], v) else None
  }

  ghost function MapIn(view: View, v: nat, p: nat): View
    requires |view.table| == 1024
  {
    View(view.slots + {Slot(v)}, view.table[Entry(v) := Or3(p)])
  }

  /** Through the shared table the two-level walk is a one-level lookup. */
  lemma SharedWalk(mem: Memory, dir: nat, tab: nat, v: nat)
    requires Shared(mem, dir, tab) && v < ADDRESSES
    ensures Translate(mem, dir, v) == Resolve(ViewOf(mem, dir, tab), v)
  {
    EntryFields(tab, 3);
  }

  /** What one map_page does to every address: its own page moves, and so does every alias of it. */
  lemma MapMoves(view: View, v: nat, p: nat, w: nat)
    requires |view.table| == 1024
    requires p % PAGE == 0
    ensures Resolve(MapIn(view, v, p), w) ==
            if Entry(w) != Entry(v) && (Slot(w) != Slot(v) || Slot(v) in view.slots) then Resolve(view, w)
            else if Entry(w) == Entry(v) && (Slot(w) == Slot(v) || Slot(w) in view.slots) then Some(p + w % PAGE)
            else if Entry(w) == Entry(v) then None
            else Leaf(view.table[Entry(w)], w)
  {
    FlagsKeepFrame(p);
  }

  // ----- Growing the heap page by page

  const HEAP_ADDRESS := 0xC040_0000
  const VGA := 0xB8000

  /** The kernel view that init_paging builds: 4 MB of RAM, visible at 0 and at the kernel base. */
  ghost function BootView(): View {
    View({0, 768}, seq(1024, i requires i >= 0 => Or3(i * PAGE)))
  }

  /** Map consecutive pages from address v to the given frames, first page first. */
  ghost function MapFrames(view: View, v: nat, frames: seq<nat>): (r: View)
    requires |view.table| == 1024
    ensures |r.table| == 1024
    decreases |frames|
  {
    if frames == [] then view
    else
      var last := |frames| - 1;
      MapIn(MapFrames(view, v, frames[..last]), v + last * PAGE, frames[last] * PAGE)
  }

  lemma {:induction false} MapFramesConcat(view: View, v: nat, a: seq<nat>, b: seq<nat>)
    requires |view.table| == 1024
    ensures MapFrames(MapFrames(view, v, a), v + |a| * PAGE, b) == MapFrames(view, v, a + b)
    decreases |b|
  {
    if b == [] {
      assert a + b == a;
    } else {
      var last := |b| - 1;
      MapFramesConcat(view, v, a, b[..last]);
      assert (a + b)[..|a + b| - 1] == a + b[..last];
      assert v + |a| * PAGE + last * PAGE == v + (|a| + last) * PAGE;
    }
  }

  lemma MapFramesSnoc(view: View, v: nat, a: seq<nat>, f: nat)
    requires |view.table| == 1024
    ensures MapFrames(view, v, a + [f]) == MapIn(MapFrames(view, v, a), v + |a| * PAGE, f * PAGE)
  {
    assert (a + [f])[..|a|] == a;
  }

  lemma HeapPage(i: nat)
    ensures Entry(HEAP_ADDRESS + i * PAGE) == i % 1024
    ensures Slot(HEAP_ADDRESS + i * PAGE) == 769 + i / 1024
    ensures (HEAP_ADDRESS + i * PAGE) % PAGE == 0
  {
  }

  lemma HeapSlotReached(n: nat, i: nat)
    requires i < n
    ensures i / 1024 < (n + 1023) / 1024
  {
  }

  /** The newest page mapped onto table entry e by n heap pages. */
  ghost predicate Newest(n: nat, e: nat, j: nat) {
    j < n && j % 1024 == e && n <= j + 1024
  }

  lemma NewestIsUnique(n: nat, e: nat, i: nat, j: nat)
    requires Newest(n, e, i) && Newest(n, e, j)
    ensures i == j
  {
  }

  /** Which frame each entry holds after n heap pages: the newest page with that entry wins. */
  lemma {:induction false} GrownTable(view: View, frames: seq<nat>, e: nat)
    requires |view.table| == 1024 && e < 1024
    ensures var r := MapFrames(view, HEAP_ADDRESS, frames);
            && (e >= |frames| ==> r.table[e] == view.table[e])
            && (forall j: nat :: Newest(|frames|, e, j) ==> r.table[e] == Or3(frames[j] * PAGE))
    decreases |frames|
  {
    if frames != [] {
      var last := |frames| - 1;
      HeapPage(last);
      GrownTable(view, frames[..last], e);
      forall j: nat | Newest(|frames|, e, j)
        ensures MapFrames(view, HEAP_ADDRESS, frames).table[e] == Or3(frames[j] * PAGE)
      {
        if last % 1024 == e {
          NewestIsUnique(|frames|, e, j, last);
        } else {
          assert Newest(last, e, j);
          assert frames[..last][j] == frames[j];
        }
      }
    }
  }

  lemma NewestExists(n: nat, e: nat) returns (j: nat)
    requires e < 1024 && e < n
    ensures Newest(n, e, j)
  {
    var d := (n - 1 - e) / 1024;
    j := e + 1024 * d;
  }

  lemma {:induction false} GrownSlots(view: View, frames: seq<nat>, s: nat)
    requires |view.table| == 1024
    ensures s in MapFrames(view, HEAP_ADDRESS, frames).slots <==>
            s in view.slots || 769 <= s < 769 + (|frames| + 1023) / 1024
    decreases |frames|
  {
    if frames != [] {
      var last := |frames| - 1;
      HeapPage(last);
      GrownSlots(view, frames[..last], s);
    }
  }

  ghost predicate Distinct(frames: seq<nat>) {
    forall i, j :: 0 <= i < j < |frames| ==> frames[i] != frames[j]
  }

  lemma LowAddress(a: nat)
    requires a < 0x40_0000
    ensures Slot(KERNEL_BASE + a) == 768 && Slot(a) == 0
    ensures Entry(KERNEL_BASE + a) == Entry(a) == a / PAGE
    ensures (KERNEL_BASE + a) % PAGE == a % PAGE
    ensures a / PAGE * PAGE + a % PAGE == a
  {
  }

  lemma BootEntry(a: nat)
    requires a < 0x40_0000
    ensures Leaf(BootView().table[Entry(a)], KERNEL_BASE + a) == Some(a)
  {
    LowAddress(a);
    EntryFields(a / PAGE, 3);
  }

  /** A page of the low 4 MB, seen at the kernel base, after the heap has grown to the given frames. */
  ghost function LowPage(frames: seq<nat>, a: nat): Option<nat> {
    Resolve(MapFrames(BootView(), HEAP_ADDRESS, frames), KERNEL_BASE + a)
  }

  lemma LowPageIsLeaf(frames: seq<nat>, a: nat)
    requires a < 0x40_0000
    ensures LowPage(frames, a) == Leaf(MapFrames(BootView(), HEAP_ADDRESS, frames).table[a / PAGE], KERNEL_BASE + a)
  {
    LowAddress(a);
    GrownSlots(BootView(), frames, 768);
  }

  lemma LowPageKept(frames: seq<nat>, a: nat)
    requires a < 0x40_0000 && a / PAGE >= |frames|
    ensures LowPage(frames, a) == Some(a)
  {
    LowPageIsLeaf(frames, a);
    GrownTable(BootView(), frames, a / PAGE);
    LowAddress(a);
    BootEntry(a);
  }

  lemma LowPageTaken(frames: seq<nat>, a: nat) returns (j: nat)
    requires a < 0x40_0000 && a / PAGE < |frames|
    ensures j < |frames| && LowPage(frames, a) == Some(frames[j] * PAGE + a % PAGE)
  {
    LowPageIsLeaf(frames, a);
    GrownTable(BootView(), frames, a / PAGE);
    LowAddress(a);
    j := NewestExists(|frames|, a / PAGE);
    EntryFields(frames[j], 3);
  }

  ghost predicate VgaKept(view: View)
    requires |view.table| == 1024
  {
    Resolve(view, KERNEL_BASE + VGA) == Some(VGA)
  }

  ghost predicate KernelKept(view: View)
    requires |view.table| == 1024
  {
    forall a: nat :: 0x10_0000 <= a < 0x40_0000 ==> Resolve(view, KERNEL_BASE + a) == Some(a)
  }

  ghost predicate PageReaches(frames: seq<nat>, i: nat, j: nat) {
    j < |frames| && Resolve(MapFrames(BootView(), HEAP_ADDRESS, frames), HEAP_ADDRESS + i * PAGE)
                    == Some(frames[j] * PAGE)
  }

  /** Every heap page reaches the frame that was mapped for it. */
  ghost predicate HeapPagesKept(frames: seq<nat>) {
    forall i: nat :: i < |frames| ==> PageReaches(frames, i, i)
  }

  /** The screen survives exactly 184 pages of heap: page 185 takes over its table entry. */
  lemma ScreenSurvivesGrowth(frames: seq<nat>)
    requires forall i :: 0 <= i < |frames| ==> frames[i] >= 256
    ensures VgaKept(MapFrames(BootView(), HEAP_ADDRESS, frames)) <==> |frames| <= 184
  {
    if |frames| <= 184 {
      LowPageKept(frames, VGA);
    } else {
      var j := LowPageTaken(frames, VGA);
    }
  }

  lemma KernelEntry(a: nat)
    requires 0x10_0000 <= a
    ensures a / PAGE >= 256
  {
  }

  /** The kernel image survives exactly 256 pages of heap, when heap frames lie outside it. */
  lemma KernelSurvivesGrowth(frames: seq<nat>)
    requires forall i :: 0 <= i < |frames| ==> frames[i] > 256
    ensures KernelKept(MapFrames(BootView(), HEAP_ADDRESS, frames)) <==> |frames| <= 256
  {
    if |frames| <= 256 {
      forall a: nat | 0x10_0000 <= a < 0x40_0000
        ensures LowPage(frames, a) == Some(a)
      {
        KernelEntry(a);
        LowPageKept(frames, a);
      }
    } else {
      var j := LowPageTaken(frames, 0x10_0000);
      assert LowPage(frames, 0x10_0000) != Some(0x10_0000);
    }
  }

  lemma HeapPageAfterGrowth(frames: seq<nat>, i: nat) returns (j: nat)
    requires i < |frames|
    ensures Newest(|frames|, i % 1024, j) && PageReaches(frames, i, j)
  {
    HeapPage(i);
    HeapSlotReached(|frames|, i);
    GrownSlots(BootView(), frames, 769 + i / 1024);
    GrownTable(BootView(), frames, i % 1024);
    ModBound(i);
    j := NewestExists(|frames|, i % 1024);
    EntryFields(frames[j], 3);
  }

  lemma ModBound(i: nat)
    ensures i % 1024 < 1024 && i % 1024 <= i
  {
  }

  lemma OwnPageNewest(n: nat, i: nat)
    requires i < n <= 1024
    ensures Newest(n, i % 1024, i)
  {
  }

  lemma FirstPageTaken(frames: seq<nat>)
    requires Distinct(frames) && |frames| > 1024
    ensures !PageReaches(frames, 0, 0)
  {
    var j := HeapPageAfterGrowth(frames, 0);
    assert frames[0] != frames[j];
  }

  /** Each heap page reaches its own frame exactly while the heap fits one table. */
  lemma HeapSurvivesGrowth(frames: seq<nat>)
    requires Distinct(frames)
    ensures HeapPagesKept(frames) <==> |frames| <= 1024
  {
    if |frames| <= 1024 {
      forall i: nat | i < |frames|
        ensures PageReaches(frames, i, i)
      {
        var j := HeapPageAfterGrowth(frames, i);
        OwnPageNewest(|frames|, i);
        NewestIsUnique(|frames|, i % 1024, i, j);
      }
    } else {
      FirstPageTaken(frames);
    }
  }
}
