/** initrd.c: the RAM disk's directory and its reads, on the image left in memory. */
module Initrd {
  import opened CStrings
  import opened Image
  import opened Wrappers

  datatype Node = Node(name: seq<Byte>, flags: nat, length: nat, inode: nat)

  /** How many bytes a read copies, with the source's 32-bit sum. */
  function Count(length: nat, offset: nat, size: nat): (n: nat)
    requires offset < WRAP && size < WRAP
    ensures n <= size
  {
    if offset > length then 0
    else if (offset + size) % WRAP > length then length - offset
    else size
  }

  /** What a read should give. */
  ghost function Slice(content: seq<Byte>, offset: nat, size: nat): (r: seq<Byte>)
    ensures |r| == if offset > |content| then 0 else if |content| - offset < size then |content| - offset else size
    ensures forall k :: 0 <= k < |r| ==> r[k] == content[offset + k]
  {
    if offset > |content| then []
    else if offset + size > |content| then content[offset..]
    else content[offset..offset + size]
  }

  /** A read copies as many bytes as it should exactly when the sum does not wrap or the offset is past the end;
      otherwise it copies all that were asked for, from past the end of the file too. */
  lemma CountIsExact(content: seq<Byte>, offset: nat, size: nat)
    requires |content| < WRAP && offset < WRAP && size < WRAP
    ensures Count(|content|, offset, size) == |Slice(content, offset, size)| <==>
            offset > |content| || offset + size < WRAP
    ensures offset <= |content| && offset + size >= WRAP ==> Count(|content|, offset, size) == size
  {
  }

  /** The bytes are those of memory from an address on, which wraps around. */
  ghost predicate Fetched(ram: seq<Byte>, src: nat, got: seq<Byte>) {
    |ram| == WRAP && forall k :: 0 <= k < |got| ==> got[k] == ram[(src + k) % WRAP]
  }

  lemma FetchedPart(ram: seq<Byte>, start: nat, content: seq<Byte>, offset: nat, got: seq<Byte>)
    requires Holds(ram, start, content) && Fetched(ram, start + offset, got) && offset + |got| <= |content|
    ensures got == content[offset..offset + |got|]
  {
    forall k | 0 <= k < |got|
      ensures got[k] == content[offset + k]
    {
      assert ram[start..start + |content|][offset + k] == ram[start + offset + k];
    }
  }

  /** The bytes that a read copies are the asked-for part of the contents, unless the 32-bit sum wraps. */
  lemma FetchedSlice(ram: seq<Byte>, start: nat, content: seq<Byte>, offset: nat, size: nat, got: seq<Byte>)
    requires Holds(ram, start, content) && Fetched(ram, start + offset, got)
    requires |content| < WRAP && offset < WRAP && size < WRAP && (offset > |content| || offset + size < WRAP)
    requires |got| == Count(|content|, offset, size)
    ensures got == Slice(content, offset, size)
  {
    if offset <= |content| {
      FetchedPart(ram, start, content, offset, got);
    }
  }

  lemma FileFetched(ram: seq<Byte>, at: nat, h: nat, file: File, offset: nat, size: nat, got: seq<Byte>)
    requires FileAt(ram, at, h, file) && offset < WRAP && size < WRAP
    requires offset > |file.content| || offset + size < WRAP
    requires Fetched(ram, at + OffsetAt(ram, h) + offset, got) && |got| == Count(LengthAt(ram, h), offset, size)
    ensures got == Slice(file.content, offset, size)
  {
    FetchedSlice(ram, at + OffsetAt(ram, h), file.content, offset, size, got);
  }

  /** The name a node gets: the header's name, cut off so that a NUL fits after it. */
  ghost function Cut(name: seq<Byte>): seq<Byte> {
    if |name| < NAME then name else name[..NAME - 1]
  }

  /** "initrd", the root directory's name. */
  const ROOT_NAME: seq<Byte> := [0x69, 0x6E, 0x69, 0x74, 0x72, 0x64, 0]

  /** What strncpy and the NUL after it leave in a node's name. */
  lemma NodeName(name: seq<Byte>, field: seq<Byte>)
    requires |name| == NAME && name[NAME - 1] == 0
    requires forall k :: 0 <= k < NAME - 1 ==> name[k] == Padded(CString(field), k)
    ensures 0 in name && CString(name) == Cut(CString(field))
  {
    CStringEnds(field);
    var text := CString(field);
    var end := if |text| < NAME then |text| else NAME - 1;
    assert forall k :: 0 <= k < end ==> name[..end][k] == text[k] != 0;
    CStringIs(name, end);
    assert name[..end] == Cut(text);
  }

  class RamDisk {
    const ram: seq<Byte>
    var blobStart: nat
    var numFiles: nat
    var root: Node
    var fileNodes: array<Node>
    const direntName: array<Byte>
    var direntInode: nat

    constructor (memory: seq<Byte>)
      ensures ram == memory && fresh(direntName) && direntName.Length == NAME
    {
      ram, blobStart, numFiles, direntInode := memory, 0, 0, 0;
      root := Node([], 0, 0, 0);
      fileNodes := new Node[0];
      direntName := new Byte[NAME](i => 0);
    }

    ghost predicate TableInMemory(at: nat) {
      |ram| == WRAP && at + 4 <= |ram| && HeaderStart(at, CountAt(ram, at)) <= |ram|
    }

    /** Every node describes the header of the same number. */
    ghost predicate Mounted()
      reads this`blobStart, this`numFiles, this`fileNodes, fileNodes
    {
      && TableInMemory(blobStart) && CountAt(ram, blobStart) == numFiles == fileNodes.Length
      && direntName.Length == NAME && direntName as object != fileNodes
      && forall i :: 0 <= i < numFiles ==> NodeFor(fileNodes[i], blobStart, i)
    }

    ghost predicate NodeFor(node: Node, at: nat, i: nat)
      requires TableInMemory(at) && i < CountAt(ram, at)
    {
      var h := HeaderStart(at, i);
      && node.inode == i && node.flags == 1 && node.length == LengthAt(ram, h)
      && |node.name| == NAME && 0 in node.name && CString(node.name) == Cut(CString(NameAt(ram, h)))
    }

    /** Lines 57-67. */
    method MakeNode(at: nat, i: nat) returns (node: Node)
      requires TableInMemory(at) && i < CountAt(ram, at)
      ensures NodeFor(node, at, i)
    {
      var h := HeaderStart(at, i);
      var name := new Byte[NAME];
      Strncpy(name, NameAt(ram, h), NAME - 1);
      name[NAME - 1] := 0;
      NodeName(name[..], NameAt(ram, h));
      node := Node(name[..], 1, LengthAt(ram, h), i);
    }

    /** Lines 31-40. */
    method MakeRoot() returns (node: Node)
      ensures node.flags == 2 && node.length == 0 && node.inode == 0 && CString(node.name) == CString(ROOT_NAME)
    {
      var name := new Byte[NAME];
      Strncpy(name, ROOT_NAME, NAME - 1);
      name[NAME - 1] := 0;
      CStringEnds(ROOT_NAME);
      NodeName(name[..], ROOT_NAME);
      node := Node(name[..], 2, 0, 0);
    }

    method Initialize(location: nat)
      requires TableInMemory(location) && direntName.Length == NAME
      modifies this
      ensures Mounted() && blobStart == location && fresh(fileNodes)
      ensures root.flags == 2 && CString(root.name) == CString(ROOT_NAME)
    {
      blobStart := location;
      numFiles := CountAt(ram, location);
      root := MakeRoot();
      fileNodes := new Node[numFiles];
      var i := 0;
      while i < numFiles
        invariant 0 <= i <= numFiles == fileNodes.Length
        invariant blobStart == location && numFiles == CountAt(ram, location) && fresh(fileNodes)
        invariant root.flags == 2 && CString(root.name) == CString(ROOT_NAME)
        invariant forall k :: 0 <= k < i ==> NodeFor(fileNodes[k], location, k)
        modifies fileNodes
      {
        fileNodes[i] := MakeNode(location, i);
        i := i + 1;
      }
    }

    /** The first node with the name, or none: the names compared are the nodes', cut off and all. */
    method FindDir(name: seq<Byte>) returns (r: Option<nat>)
      requires Mounted() && 0 in name
      ensures r.Some? ==> r.value < numFiles && CString(fileNodes[r.value].name) == CString(name)
      ensures forall j :: 0 <= j < (if r.Some? then r.value else numFiles) ==>
                CString(fileNodes[j].name) != CString(name)
    {
      var i := 0;
      while i < numFiles
        invariant 0 <= i <= numFiles
        invariant forall j :: 0 <= j < i ==> CString(fileNodes[j].name) != CString(name)
      {
        var order := Strcmp(name, fileNodes[i].name);
        if order == 0 {
          return Some(i);
        }
        i := i + 1;
      }
      return None;
    }

    /** The entry of an index, or nothing when there is no such file. */
    method ReadDir(index: nat) returns (found: bool)
      requires Mounted()
      modifies this`direntInode, direntName
      ensures Mounted() && (found <==> index < numFiles)
      ensures found ==> 0 in direntName[..] && CString(direntName[..]) == CString(fileNodes[index].name)
      ensures found ==> direntInode == index
      ensures !found ==> direntName[..] == old(direntName[..]) && direntInode == old(direntInode)
    {
      if index >= numFiles {
        return false;
      }
      var target := fileNodes[index];
      ghost var end := Terminator(target.name);
      Strcpy(direntName, target.name);
      direntInode := target.inode;
      return true;
    }

    /** memcpy out of memory, whose addresses wrap around. */
    method Memcpy(dest: array<Byte>, src: nat, n: nat)
      requires |ram| == WRAP && n <= dest.Length
      modifies dest
      ensures Fetched(ram, src, dest[..n])
      ensures forall k :: n <= k < dest.Length ==> dest[k] == old(dest[k])
    {
      var i := 0;
      while i < n
        invariant 0 <= i <= n
        invariant forall k :: 0 <= k < i ==> dest[k] == ram[(src + k) % WRAP]
        invariant forall k :: i <= k < dest.Length ==> dest[k] == old(dest[k])
      {
        dest[i] := ram[(src + i) % WRAP];
        i := i + 1;
      }
    }

    /** initrd_read of a node of this disk. */
    method Read(inode: nat, offset: nat, size: nat, buffer: array<Byte>) returns (n: nat)
      requires Mounted() && inode < numFiles && offset < WRAP && size < WRAP
      requires size <= buffer.Length
      modifies buffer
      ensures var h := HeaderStart(blobStart, inode);
              && n == Count(LengthAt(ram, h), offset, size) <= size
              && Fetched(ram, blobStart + OffsetAt(ram, h) + offset, buffer[..n])
      ensures forall k :: n <= k < buffer.Length ==> buffer[k] == old(buffer[k])
    {
      var h := HeaderStart(blobStart, inode);
      var dataStart := blobStart + OffsetAt(ram, h);
      if offset > LengthAt(ram, h) {
        return 0;
      }
      n := size;
      if (offset + size) % WRAP > LengthAt(ram, h) {
        n := LengthAt(ram, h) - offset;
      }
      assert n == Count(LengthAt(ram, h), offset, size);
      Memcpy(buffer, dataStart + offset, n);
    }

    // ----- An image of make_initrd

    ghost predicate Serves(headers: seq<Header>, files: seq<File>)
      reads this`blobStart, this`numFiles, this`fileNodes, fileNodes
    {
      Mounted() && Describe(headers, files) && Holds(ram, blobStart, ImageOf(headers, files))
    }

    /** Mounting an image of make_initrd needs nothing but room for it in memory. */
    lemma ImageMounts(at: nat, headers: seq<Header>, files: seq<File>)
      requires |ram| == WRAP && Describe(headers, files) && Holds(ram, at, ImageOf(headers, files))
      ensures TableInMemory(at) && CountAt(ram, at) == |files|
    {
      CountRead(ram, at, headers, files);
      AllFit(headers, files);
      TableSize(headers);
    }

    /** Every node bears the name and the length of the file packed at its place. */
    lemma NodesAreFiles(headers: seq<Header>, files: seq<File>)
      requires Serves(headers, files)
      ensures |files| == numFiles
      ensures forall i :: 0 <= i < |files| ==>
                CString(fileNodes[i].name) == files[i].name && fileNodes[i].length == |files[i].content|
    {
      CountRead(ram, blobStart, headers, files);
      forall i | 0 <= i < |files|
        ensures CString(fileNodes[i].name) == files[i].name && fileNodes[i].length == |files[i].content|
      {
        assert FileAt(ram, blobStart, HeaderStart(blobStart, i), files[i]) by {
          ImageReads(ram, blobStart, headers, files, i);
        }
        assert NodeFor(fileNodes[i], blobStart, i);
      }
    }

    /** Finding a file by name and reading it, as terminal.c does: nothing when no file has the name, and otherwise
        the asked-for part of the first file that has it. */
    method ReadNamed(name: seq<Byte>, offset: nat, size: nat, buffer: array<Byte>,
                     ghost headers: seq<Header>, ghost files: seq<File>)
      returns (r: Option<nat>, n: nat)
      requires Serves(headers, files) && 0 in name && offset < WRAP && size < WRAP && size <= buffer.Length
      requires buffer != direntName
      modifies buffer
      ensures r.Some? ==> r.value < |files| && files[r.value].name == CString(name)
      ensures forall j :: 0 <= j < (if r.Some? then r.value else |files|) ==> files[j].name != CString(name)
      ensures n <= size
      ensures r.Some? && (offset > |files[r.value].content| || offset + size < WRAP) ==>
                buffer[..n] == Slice(files[r.value].content, offset, size)
    {
      NodesAreFiles(headers, files);
      r := FindDir(name);
      n := 0;
      if r.Some? {
        ImageReads(ram, blobStart, headers, files, r.value);
        n := ReadFile(r.value, offset, size, buffer, files[r.value]);
      }
    }

    method ReadFile(inode: nat, offset: nat, size: nat, buffer: array<Byte>, ghost file: File) returns (n: nat)
      requires Mounted() && inode < numFiles && FileAt(ram, blobStart, HeaderStart(blobStart, inode), file)
      requires offset < WRAP && size < WRAP && size <= buffer.Length
      modifies buffer
      ensures n <= size
      ensures offset > |file.content| || offset + size < WRAP ==> buffer[..n] == Slice(file.content, offset, size)
    {
      ghost var h := HeaderStart(blobStart, inode);
      n := Read(inode, offset, size, buffer);
      if offset > |file.content| || offset + size < WRAP {
        FileFetched(ram, blobStart, h, file, offset, size, buffer[..n]);
      }
    }

    /** Finding a file by name and reading all of it, some bytes at a time. */
    method ReadWholeNamed(name: seq<Byte>, size: nat, buffer: array<Byte>,
                          ghost headers: seq<Header>, ghost files: seq<File>)
      returns (r: Option<nat>, all: seq<Byte>)
      requires Serves(headers, files) && 0 in name && 0 < size <= buffer.Length && fileNodes as object != buffer
      requires forall i :: 0 <= i < |files| ==> |files[i].content| + size < WRAP
      modifies buffer
      ensures r.Some? ==> r.value < |files| && files[r.value].name == CString(name) && all == files[r.value].content
      ensures forall j :: 0 <= j < (if r.Some? then r.value else |files|) ==> files[j].name != CString(name)
    {
      NodesAreFiles(headers, files);
      r := FindDir(name);
      all := [];
      if r.Some? {
        ImageReads(ram, blobStart, headers, files, r.value);
        all := ReadWhole(r.value, size, buffer, files[r.value]);
      }
    }

    /** A client that reads size bytes at a time until nothing comes has the whole file, as long as no sum of offset
        and size wraps on the way. */
    method ReadWhole(inode: nat, size: nat, buffer: array<Byte>, ghost file: File) returns (all: seq<Byte>)
      requires Mounted() && inode < numFiles && FileAt(ram, blobStart, HeaderStart(blobStart, inode), file)
      requires 0 < size <= buffer.Length && |file.content| + size < WRAP && fileNodes as object != buffer
      modifies buffer
      ensures all == file.content
    {
      all := [];
      var n: nat := ReadFile(inode, 0, size, buffer, file);
      while n > 0
        invariant Mounted() && n <= size && |all| <= |file.content| && all == file.content[..|all|]
        invariant buffer[..n] == Slice(file.content, |all|, size)
        decreases |file.content| - |all|
      {
        SliceExtends(file.content, |all|, size);
        all := all + buffer[..n];
        n := ReadFile(inode, |all|, size, buffer, file);
      }
      SliceExtends(file.content, |all|, size);
    }
  }

  /** What has been read and the next piece are a longer prefix, until nothing is left. */
  lemma SliceExtends(content: seq<Byte>, offset: nat, size: nat)
    requires offset <= |content| && size > 0
    ensures var got := Slice(content, offset, size);
            && offset + |got| <= |content| && content[..offset] + got == content[..offset + |got|]
            && (got == [] ==> offset == |content|)
  {
  }
}
