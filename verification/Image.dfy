/** The layout make_initrd.c writes and initrd.c reads: a count, a table of headers, the files' contents. */
module Image {
  import opened CStrings

  const WRAP := 0x1_0000_0000
  const HEADER := 140
  const NAME := 128

  // ----- Little-endian words

  function Bytes(w: nat, n: nat): (b: seq<Byte>)
    ensures |b| == n
    decreases n
  {
    if n == 0 then [] else [w % 256] + Bytes(w / 256, n - 1)
  }

  function Word(b: seq<Byte>): nat {
    if b == [] then 0 else b[0] + 256 * Word(b[1..])
  }

  ghost function Radix(n: nat): nat {
    if n == 0 then 1 else 256 * Radix(n - 1)
  }

  /** Reading n bytes gives back any number that fits in them. */
  lemma {:induction false} WordOfBytes(w: nat, n: nat)
    requires w < Radix(n)
    ensures Word(Bytes(w, n)) == w
    decreases n
  {
    if n > 0 {
      WordOfBytes(w / 256, n - 1);
      assert Bytes(w, n)[1..] == Bytes(w / 256, n - 1);
    }
  }

  lemma WordRoundTrip(w: nat)
    requires w < WRAP
    ensures Word(Bytes(w, 4)) == w
  {
    assert Radix(1) == 256 && Radix(2) == 0x1_0000 && Radix(3) == 0x100_0000 && Radix(4) == WRAP;
    WordOfBytes(w, 4);
  }

  /** The four bytes from a position on are those of a number, lowest first. */
  ghost predicate LowestFirst(s: seq<Byte>, at: nat, w: nat) {
    && at + 4 <= |s|
    && s[at] == w % 0x100 && s[at + 1] == w / 0x100 % 0x100
    && s[at + 2] == w / 0x1_0000 % 0x100 && s[at + 3] == w / 0x100_0000 % 0x100
  }

  lemma BytesLowestFirst(w: nat)
    ensures LowestFirst(Bytes(w, 4), 0, w)
  {
    var a := w / 256;
    var b := a / 256;
    var c := b / 256;
    assert Bytes(w, 4) == [w % 256] + Bytes(a, 3) && Bytes(a, 3) == [a % 256] + Bytes(b, 2);
    assert Bytes(b, 2) == [b % 256] + Bytes(c, 1) && Bytes(c, 1) == [c % 256] + Bytes(c / 256, 0);
    assert b == w / 0x1_0000 && c == w / 0x100_0000;
  }

  /** What the reader makes of four bytes. */
  lemma WordLowestFirst(b: seq<Byte>)
    requires |b| == 4
    ensures Word(b) == b[0] as int + 0x100 * (b[1] as int) + 0x1_0000 * (b[2] as int) + 0x100_0000 * (b[3] as int)
  {
    var c := b[1..];
    var d := c[1..];
    var e := d[1..];
    assert c[0] == b[1] && d[0] == b[2] && e[0] == b[3] && e[1..] == [];
    assert Word(e) == e[0] as int + 256 * Word([]);
    assert Word(d) == d[0] as int + 256 * Word(e);
    assert Word(c) == c[0] as int + 256 * Word(d);
  }

  // ----- Files and headers

  datatype File = File(name: seq<Byte>, content: seq<Byte>)

  /** A header on disk: the magic number is whatever was on the packer's stack, as is the end of the name field. */
  datatype Header = Header(magic: seq<Byte>, length: nat, offset: nat, name: seq<Byte>)

  ghost predicate FitsFields(h: Header) {
    |h.magic| == 4 && |h.name| == NAME && h.length < WRAP && h.offset < WRAP
  }

  function HeaderBytes(h: Header): seq<Byte> {
    h.magic + Bytes(h.length, 4) + Bytes(h.offset, 4) + h.name
  }

  ghost function Table(headers: seq<Header>): seq<Byte>
    decreases |headers|
  {
    if headers == [] then [] else Table(headers[..|headers| - 1]) + HeaderBytes(headers[|headers| - 1])
  }

  ghost function Contents(files: seq<File>): seq<Byte>
    decreases |files|
  {
    if files == [] then [] else Contents(files[..|files| - 1]) + files[|files| - 1].content
  }

  /** Where the contents of file i start. */
  ghost function DataStart(files: seq<File>, i: nat): nat
    requires i <= |files|
  {
    4 + HEADER * |files| + |Contents(files[..i])|
  }

  /** The header of file i: its name as a C string, its length, and the sum of what comes before its contents. */
  ghost predicate Describes(h: Header, files: seq<File>, i: nat)
    requires i < |files|
  {
    && FitsFields(h) && |files[i].name| < NAME && CString(h.name) == files[i].name
    && h.length == |files[i].content| && h.offset == DataStart(files, i)
  }

  ghost predicate Describe(headers: seq<Header>, files: seq<File>) {
    && |headers| == |files| < WRAP
    && forall i :: 0 <= i < |files| ==> Describes(headers[i], files, i)
  }

  ghost function ImageOf(headers: seq<Header>, files: seq<File>): seq<Byte> {
    Bytes(|files|, 4) + Table(headers) + Contents(files)
  }

  // ----- Parts of a byte sequence

  ghost predicate Holds(s: seq<Byte>, at: nat, part: seq<Byte>) {
    at + |part| <= |s| && s[at..at + |part|] == part
  }

  lemma HeldInFront(a: seq<Byte>, b: seq<Byte>, at: nat, part: seq<Byte>)
    requires Holds(a, at, part)
    ensures Holds(a + b, at, part)
  {
  }

  lemma HeldInBack(a: seq<Byte>, b: seq<Byte>, at: nat, part: seq<Byte>)
    requires at >= |a| && Holds(b, at - |a|, part)
    ensures Holds(a + b, at, part)
  {
    var from := at - |a|;
    assert (a + b)[at..at + |part|] == b[from..from + |part|];
  }

  lemma SliceOfSlice<T>(s: seq<T>, lo: nat, hi: nat, from: nat, upto: nat, x: nat, y: nat)
    requires lo <= hi <= |s| && from <= upto <= hi - lo && x == lo + from && y == lo + upto
    ensures s[lo..hi][from..upto] == s[x..y]
  {
    var inner, outer := s[lo..hi][from..upto], s[x..y];
    assert |inner| == |outer|;
    forall k | 0 <= k < |inner|
      ensures inner[k] == outer[k]
    {
      assert inner[k] == s[lo..hi][from + k] == s[lo + (from + k)];
    }
  }

  lemma HeldInPart(s: seq<Byte>, at: nat, part: seq<Byte>, from: nat, inner: seq<Byte>)
    requires Holds(s, at, part) && Holds(part, from, inner)
    ensures Holds(s, at + from, inner)
  {
    SliceOfSlice(s, at, at + |part|, from, from + |inner|, at + from, at + from + |inner|);
  }

  // ----- Where things are in an image

  lemma {:induction false} TableSize(headers: seq<Header>)
    requires forall i :: 0 <= i < |headers| ==> FitsFields(headers[i])
    ensures |Table(headers)| == HEADER * |headers|
    decreases |headers|
  {
    if headers != [] {
      TableSize(headers[..|headers| - 1]);
    }
  }

  lemma {:induction false} HeaderInTable(headers: seq<Header>, i: nat, from: nat)
    requires forall j :: 0 <= j < |headers| ==> FitsFields(headers[j])
    requires i < |headers| && from == HEADER * i
    ensures Holds(Table(headers), from, HeaderBytes(headers[i]))
    decreases |headers|
  {
    var last := |headers| - 1;
    var front, back := Table(headers[..last]), HeaderBytes(headers[last]);
    TableSize(headers[..last]);
    if i < last {
      HeaderInTable(headers[..last], i, from);
      HeldInFront(front, back, from, HeaderBytes(headers[i]));
    } else {
      HeldInBack(front, back, from, back);
    }
  }

  lemma {:induction false} FileInContents(files: seq<File>, i: nat)
    requires i < |files|
    ensures Holds(Contents(files), |Contents(files[..i])|, files[i].content)
    decreases |files|
  {
    var last := |files| - 1;
    var front, back := Contents(files[..last]), files[last].content;
    if i < last {
      assert files[..last][..i] == files[..i];
      FileInContents(files[..last], i);
      HeldInFront(front, back, |Contents(files[..i])|, files[i].content);
    } else {
      HeldInBack(front, back, |front|, back);
    }
  }

  lemma AllFit(headers: seq<Header>, files: seq<File>)
    requires Describe(headers, files)
    ensures forall i :: 0 <= i < |headers| ==> FitsFields(headers[i])
  {
    assert forall i :: 0 <= i < |headers| ==> Describes(headers[i], files, i);
  }

  lemma HeaderInImage(headers: seq<Header>, files: seq<File>, i: nat)
    requires Describe(headers, files) && i < |files|
    ensures Holds(ImageOf(headers, files), HeaderStart(0, i), HeaderBytes(headers[i]))
  {
    var table, count, b := Table(headers), Bytes(|files|, 4), HeaderBytes(headers[i]);
    AllFit(headers, files);
    HeaderInTable(headers, i, HEADER * i);
    HeldInBack(count, table, HeaderStart(0, i), b);
    HeldInFront(count + table, Contents(files), HeaderStart(0, i), b);
  }

  lemma DataInImage(headers: seq<Header>, files: seq<File>, i: nat)
    requires Describe(headers, files) && i < |files|
    ensures Holds(ImageOf(headers, files), DataStart(files, i), files[i].content)
  {
    AllFit(headers, files);
    TableSize(headers);
    FileInContents(files, i);
    HeldInBack(Bytes(|files|, 4) + Table(headers), Contents(files), DataStart(files, i), files[i].content);
  }

  // ----- An image in memory

  function CountAt(ram: seq<Byte>, at: nat): nat
    requires at + 4 <= |ram|
  {
    Word(ram[at..at + 4])
  }

  function HeaderStart(at: nat, i: nat): nat {
    at + 4 + HEADER * i
  }

  function LengthAt(ram: seq<Byte>, h: nat): nat
    requires h + HEADER <= |ram|
  {
    Word(ram[h + 4..h + 8])
  }

  function OffsetAt(ram: seq<Byte>, h: nat): nat
    requires h + HEADER <= |ram|
  {
    Word(ram[h + 8..h + 12])
  }

  function NameAt(ram: seq<Byte>, h: nat): seq<Byte>
    requires h + HEADER <= |ram|
  {
    ram[h + 12..h + HEADER]
  }

  lemma WordHeld(s: seq<Byte>, at: nat, w: nat)
    requires Holds(s, at, Bytes(w, 4)) && w < WRAP
    ensures at + 4 <= |s| && Word(s[at..at + 4]) == w
  {
    WordRoundTrip(w);
  }

  lemma CountRead(ram: seq<Byte>, at: nat, headers: seq<Header>, files: seq<File>)
    requires Describe(headers, files) && Holds(ram, at, ImageOf(headers, files))
    ensures at + 4 <= |ram| && CountAt(ram, at) == |files|
  {
    var count := Bytes(|files|, 4);
    HeldInFront(count, Table(headers), 0, count);
    HeldInFront(count + Table(headers), Contents(files), 0, count);
    HeldInPart(ram, at, ImageOf(headers, files), 0, count);
    WordHeld(ram, at, |files|);
  }

  lemma HeaderFields(ram: seq<Byte>, h: nat, header: Header)
    requires FitsFields(header) && Holds(ram, h, HeaderBytes(header))
    ensures h + HEADER <= |ram|
    ensures LengthAt(ram, h) == header.length && OffsetAt(ram, h) == header.offset && NameAt(ram, h) == header.name
  {
    var b := HeaderBytes(header);
    assert Holds(b, 4, Bytes(header.length, 4)) && Holds(b, 8, Bytes(header.offset, 4)) && Holds(b, 12, header.name);
    HeldInPart(ram, h, b, 4, Bytes(header.length, 4));
    HeldInPart(ram, h, b, 8, Bytes(header.offset, 4));
    HeldInPart(ram, h, b, 12, header.name);
    WordHeld(ram, h + 4, header.length);
    WordHeld(ram, h + 8, header.offset);
  }

  lemma HeaderLoaded(ram: seq<Byte>, at: nat, headers: seq<Header>, files: seq<File>, i: nat)
    requires Describe(headers, files) && Holds(ram, at, ImageOf(headers, files)) && i < |files|
    ensures Holds(ram, HeaderStart(at, i), HeaderBytes(headers[i]))
  {
    HeaderInImage(headers, files, i);
    HeldWithin(ram, at, ImageOf(headers, files), HeaderStart(0, i), HeaderBytes(headers[i]), HeaderStart(at, i));
  }

  lemma HeldWithin(s: seq<Byte>, at: nat, part: seq<Byte>, from: nat, inner: seq<Byte>, place: nat)
    requires Holds(s, at, part) && Holds(part, from, inner) && place == at + from
    ensures Holds(s, place, inner)
  {
    HeldInPart(s, at, part, from, inner);
  }

  /** What the reader finds in header i is what the packer put there. */
  lemma HeaderRead(ram: seq<Byte>, at: nat, headers: seq<Header>, files: seq<File>, i: nat, h: nat)
    requires Describe(headers, files) && Holds(ram, at, ImageOf(headers, files))
    requires i < |files| && h == HeaderStart(at, i)
    ensures h + HEADER <= |ram|
    ensures LengthAt(ram, h) == |files[i].content| && OffsetAt(ram, h) == DataStart(files, i)
    ensures CString(NameAt(ram, h)) == files[i].name && |files[i].name| < NAME
  {
    HeaderLoaded(ram, at, headers, files, i);
    assert Describes(headers[i], files, i);
    HeaderFields(ram, h, headers[i]);
  }

  /** The contents of file i are where its header says. */
  lemma DataRead(ram: seq<Byte>, at: nat, headers: seq<Header>, files: seq<File>, i: nat, from: nat)
    requires Describe(headers, files) && Holds(ram, at, ImageOf(headers, files)) && i < |files|
    requires from == DataStart(files, i)
    ensures Holds(ram, at + from, files[i].content)
  {
    var image, content := ImageOf(headers, files), files[i].content;
    assert Holds(image, from, content) by {
      DataInImage(headers, files, i);
    }
    HeldInPart(ram, at, image, from, content);
  }

  /** Header h of an image at an address describes the file, and its contents are where the header says. */
  ghost predicate FileAt(ram: seq<Byte>, at: nat, h: nat, file: File) {
    && h + HEADER <= |ram|
    && LengthAt(ram, h) == |file.content| < WRAP
    && Holds(ram, at + OffsetAt(ram, h), file.content)
    && CString(NameAt(ram, h)) == file.name && |file.name| < NAME
  }

  /** The packer's image reads back: every header leads to its file. */
  lemma ImageReads(ram: seq<Byte>, at: nat, headers: seq<Header>, files: seq<File>, i: nat)
    requires Describe(headers, files) && Holds(ram, at, ImageOf(headers, files)) && i < |files|
    ensures FileAt(ram, at, HeaderStart(at, i), files[i])
  {
    var h := HeaderStart(at, i);
    HeaderRead(ram, at, headers, files, i, h);
    DataRead(ram, at, headers, files, i, OffsetAt(ram, h));
    assert Describes(headers[i], files, i);
  }
}
