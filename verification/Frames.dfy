/** The physical frame allocator (memory.c): a packed bitmap that behaves as a set of free frames. */
module Frames {

  const BITMAP_SIZE := 4096
  const FRAMES := 32768
  const FRAME_BYTES := 4096

  function Mask(k: nat): bv8
    requires k < 8
  {
    1 << k
  }

  /** test_bit on one byte. */
  predicate ByteBit(b: bv8, k: nat)
    requires k < 8
  {
    b & Mask(k) != 0
  }

  predicate Bit(bitmap: seq<bv8>, i: nat)
    requires i < 8 * |bitmap|
  {
    ByteBit(bitmap[i / 8], i % 8)
  }

  /** The frames the bitmap marks as free. */
  ghost function FreeIn(bitmap: seq<bv8>): set<nat>
    requires |bitmap| == BITMAP_SIZE
  {
    set i: nat | i < FRAMES && !Bit(bitmap, i)
  }

  // ----- Single bytes

  /** Frame i has bit i % 8 of byte i / 8, the lowest bit first. */
  lemma MaskValues()
    ensures Mask(0) == 1 && Mask(1) == 2 && Mask(2) == 4 && Mask(3) == 8
    ensures Mask(4) == 16 && Mask(5) == 32 && Mask(6) == 64 && Mask(7) == 128
  {
  }

  lemma MaskBits(k: nat, j: nat)
    requires k < 8 && j < 8
    ensures k == j ==> Mask(k) & Mask(j) == Mask(j)
    ensures k != j ==> Mask(k) & Mask(j) == 0
    ensures Mask(j) != 0
  {
    MaskValues();
    assert k == 0 || k == 1 || k == 2 || k == 3 || k == 4 || k == 5 || k == 6 || k == 7;
    assert j == 0 || j == 1 || j == 2 || j == 3 || j == 4 || j == 5 || j == 6 || j == 7;
  }

  lemma OrMask(b: bv8, m: bv8, n: bv8)
    ensures m & n == n && n != 0 ==> (b | m) & n != 0
    ensures m & n == 0 ==> (b | m) & n == b & n
    ensures m & n == n && n != 0 ==> (b & !m) & n == 0
    ensures m & n == 0 ==> (b & !m) & n == b & n
  {
  }

  lemma SetByte(b: bv8, k: nat, j: nat)
    requires k < 8 && j < 8
    ensures ByteBit(b | Mask(k), j) <==> j == k || ByteBit(b, j)
    ensures ByteBit(b & !Mask(k), j) <==> j != k && ByteBit(b, j)
  {
    MaskBits(k, j);
    OrMask(b, Mask(k), Mask(j));
  }

  lemma SameBit(i: nat, j: nat)
    ensures j == i <==> j / 8 == i / 8 && j % 8 == i % 8
  {
  }

  lemma SetByteInMap(before: seq<bv8>, i: nat)
    requires |before| == BITMAP_SIZE && i < FRAMES
    ensures FreeIn(before[i / 8 := before[i / 8] | Mask(i % 8)]) == FreeIn(before) - {i}
  {
    var after := before[i / 8 := before[i / 8] | Mask(i % 8)];
    forall j: nat | j < FRAMES
      ensures Bit(after, j) <==> j == i || Bit(before, j)
    {
      SameBit(i, j);
      if j / 8 == i / 8 { SetByte(before[i / 8], i % 8, j % 8); }
    }
  }

  lemma ClearByteInMap(before: seq<bv8>, i: nat)
    requires |before| == BITMAP_SIZE && i < FRAMES
    ensures FreeIn(before[i / 8 := before[i / 8] & !Mask(i % 8)]) == FreeIn(before) + {i}
  {
    var after := before[i / 8 := before[i / 8] & !Mask(i % 8)];
    forall j: nat | j < FRAMES
      ensures Bit(after, j) <==> j != i && Bit(before, j)
    {
      SameBit(i, j);
      if j / 8 == i / 8 { SetByte(before[i / 8], i % 8, j % 8); }
    }
  }

  // ----- The allocator

  class FrameAllocator {
    const bitmap: array<bv8>

    /** Frames that may be handed out: those init_memory left free. */
    ghost var ram: set<nat>

    constructor ()
      ensures fresh(bitmap) && bitmap.Length == BITMAP_SIZE
    {
      bitmap := new bv8[BITMAP_SIZE];
      ram := {};
    }

    ghost function Free(): set<nat>
      requires bitmap.Length == BITMAP_SIZE
      reads this, bitmap
    {
      FreeIn(bitmap[..])
    }

    ghost predicate Valid()
      reads this, bitmap
    {
      && bitmap.Length == BITMAP_SIZE
      && Free() <= ram
      && (forall f :: f in ram ==> 256 <= f < FRAMES)
    }

    method SetBit(index: nat)
      requires bitmap.Length == BITMAP_SIZE && index < FRAMES
      modifies bitmap
      ensures Free() == old(Free()) - {index}
    {
      ghost var before := bitmap[..];
      bitmap[index / 8] := bitmap[index / 8] | Mask(index % 8);
      assert bitmap[..] == before[index / 8 := before[index / 8] | Mask(index % 8)];
      SetByteInMap(before, index);
    }

    method ClearBit(index: nat)
      requires bitmap.Length == BITMAP_SIZE && index < FRAMES
      modifies bitmap
      ensures Free() == old(Free()) + {index}
    {
      ghost var before := bitmap[..];
      bitmap[index / 8] := bitmap[index / 8] & !Mask(index % 8);
      assert bitmap[..] == before[index / 8 := before[index / 8] & !Mask(index % 8)];
      ClearByteInMap(before, index);
    }

    method TestBit(index: nat) returns (used: bool)
      requires bitmap.Length == BITMAP_SIZE && index < FRAMES
      ensures used <==> index !in Free()
    {
      used := bitmap[index / 8] & Mask(index % 8) != 0;
      assert Bit(bitmap[..], index) == used;
    }

    /** First free frame, scanning upwards; 0 when the scan finds none. */
    method AllocateFrame() returns (address: nat)
      requires Valid()
      modifies bitmap
      ensures Valid() && ram == old(ram)
      ensures address == 0 <==> old(Free()) == {}
      ensures address == 0 ==> bitmap[..] == old(bitmap[..])
      ensures address != 0 ==>
                && address % FRAME_BYTES == 0
                && address / FRAME_BYTES in old(Free())
                && (forall f :: f in old(Free()) ==> address / FRAME_BYTES <= f)
                && Free() == old(Free()) - {address / FRAME_BYTES}
    {
      var i := 0;
      while i < BITMAP_SIZE * 8
        invariant 0 <= i <= FRAMES
        invariant forall f :: f in Free() ==> i <= f
        invariant bitmap[..] == old(bitmap[..])
      {
        var used := TestBit(i);
        if !used {
          SetBit(i);
          return i * FRAME_BYTES;
        }
        i := i + 1;
      }
      return 0;
    }

    /** The frame is free from then on; the allocator stays sound exactly when it was a frame to hand out at all. */
    method FreeFrame(address: nat)
      requires Valid() && address / FRAME_BYTES < FRAMES
      modifies bitmap
      ensures ram == old(ram) && (Valid() <==> address / FRAME_BYTES in ram)
      ensures Free() == old(Free()) + {address / FRAME_BYTES}
    {
      ClearBit(address / FRAME_BYTES);
    }

    /** Everything is used, then RAM is free, then the kernel image and the first megabyte are used. */
    method InitMemory(totalRamBytes: nat, kernelStart: nat, kernelEnd: nat)
      requires bitmap.Length == BITMAP_SIZE
      requires totalRamBytes / FRAME_BYTES <= FRAMES
      requires (kernelEnd + 4095) / FRAME_BYTES < FRAMES
      modifies this, bitmap
      ensures Valid() && Free() == ram
      ensures forall f: nat :: f in ram <==>
                && 256 <= f < totalRamBytes / FRAME_BYTES
                && !(kernelStart / FRAME_BYTES <= f <= (kernelEnd + 4095) / FRAME_BYTES)
    {
      var i := 0;
      while i < BITMAP_SIZE * 8
        invariant 0 <= i <= FRAMES
        invariant forall f :: f in Free() ==> i <= f
      {
        SetBit(i);
        i := i + 1;
      }
      var totalFrames := totalRamBytes / FRAME_BYTES;
      i := 0;
      while i < totalFrames
        invariant 0 <= i <= totalFrames
        invariant forall f: nat :: f in Free() <==> f < i
      {
        ClearBit(i);
        i := i + 1;
      }
      var startFrame := kernelStart / FRAME_BYTES;
      var endFrame := (kernelEnd + 4095) / FRAME_BYTES;
      i := startFrame;
      while i <= endFrame
        invariant startFrame <= i
        invariant if startFrame <= endFrame then i <= endFrame + 1 else i == startFrame
        invariant forall f: nat :: f in Free() <==> f < totalFrames && !(startFrame <= f < i)
      {
        SetBit(i);
        i := i + 1;
      }
      i := 0;
      while i < 256
        invariant 0 <= i <= 256
        invariant forall f: nat :: f in Free() <==>
                    i <= f < totalFrames && !(startFrame <= f <= endFrame)
      {
        SetBit(i);
        i := i + 1;
      }
      ram := Free();
    }
  }

  /** Allocating a frame and giving it back restores the bitmap, byte for byte. */
  method AllocateThenFree(frames: FrameAllocator)
    requires frames.Valid() && frames.Free() != {}
    modifies frames.bitmap
    ensures frames.bitmap[..] == old(frames.bitmap[..])
  {
    var address := frames.AllocateFrame();
    frames.FreeFrame(address);
    SameFreeSameBitmap(old(frames.bitmap[..]), frames.bitmap[..]);
  }

  lemma BitsDetermineByte(a: bv8, b: bv8)
    requires a & 1 == b & 1 && a & 2 == b & 2 && a & 4 == b & 4 && a & 8 == b & 8
    requires a & 16 == b & 16 && a & 32 == b & 32 && a & 64 == b & 64 && a & 128 == b & 128
    ensures a == b
  {
  }

  lemma SingleBit(a: bv8, b: bv8, m: bv8)
    requires m == 1 || m == 2 || m == 4 || m == 8 || m == 16 || m == 32 || m == 64 || m == 128
    requires (a & m != 0) == (b & m != 0)
    ensures a & m == b & m
  {
  }

  lemma ByteExtensional(a: bv8, b: bv8)
    requires forall k: nat :: k < 8 ==> ByteBit(a, k) == ByteBit(b, k)
    ensures a == b
  {
    MaskValues();
    forall k: nat | k < 8
      ensures a & Mask(k) == b & Mask(k)
    {
      assert ByteBit(a, k) == ByteBit(b, k);
      assert k == 0 || k == 1 || k == 2 || k == 3 || k == 4 || k == 5 || k == 6 || k == 7;
      SingleBit(a, b, Mask(k));
    }
    assert a & Mask(0) == b & Mask(0) && a & Mask(1) == b & Mask(1);
    assert a & Mask(2) == b & Mask(2) && a & Mask(3) == b & Mask(3);
    assert a & Mask(4) == b & Mask(4) && a & Mask(5) == b & Mask(5);
    assert a & Mask(6) == b & Mask(6) && a & Mask(7) == b & Mask(7);
    BitsDetermineByte(a, b);
  }

  /** The free set determines the bitmap: the packed form holds nothing else. */
  lemma SameFreeSameBitmap(a: seq<bv8>, b: seq<bv8>)
    requires |a| == |b| == BITMAP_SIZE && FreeIn(a) == FreeIn(b)
    ensures a == b
  {
    forall i: nat | i < BITMAP_SIZE
      ensures a[i] == b[i]
    {
      forall k: nat | k < 8
        ensures ByteBit(a[i], k) == ByteBit(b[i], k)
      {
        var f: nat := 8 * i + k;
        assert f / 8 == i && f % 8 == k;
        assert Bit(a, f) == Bit(b, f) by {
          assert f in FreeIn(a) <==> f in FreeIn(b);
        }
      }
      ByteExtensional(a[i], b[i]);
    }
  }
}
