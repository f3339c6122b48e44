/** The packer and the reader together, and the two commands of terminal.c that use the reader. */
module RoundTrip {
  import opened CStrings
  import opened Editor
  import opened Image
  import opened Initrd
  import opened Packer
  import opened Wrappers

  /** The names differ, so that each finds its own file. */
  lemma NamesDiffer()
    ensures CString(HELLO) != CString(TEST)
  {
    assert CString(HELLO)[0] == 0x68 && CString(TEST)[0] == 0x74;
  }

  /** An image of the two files, somewhere in memory. */
  method PackAndLoad(hello: Option<seq<Byte>>, test: Option<seq<Byte>>, stack0: seq<Byte>, stack1: seq<Byte>,
                     before: seq<Byte>, rest: seq<Byte>)
    returns (ram: seq<Byte>, ghost headers: seq<Header>, ghost files: seq<File>)
    requires |stack0| == |stack1| == HEADER && |rest| == WRAP
    requires |before| + 4 + 2 * HEADER + |ContentOf(hello)| + |ContentOf(test)| < WRAP
    ensures files == [File(CString(HELLO), ContentOf(hello)), File(CString(TEST), ContentOf(test))]
    ensures |ram| == WRAP && Describe(headers, files) && Holds(ram, |before|, ImageOf(headers, files))
  {
    var image;
    image, headers, files := MakeInitrd(hello, test, stack0, stack1);
    ram := Loaded(before, image, rest);
  }

  function Loaded(before: seq<Byte>, image: seq<Byte>, rest: seq<Byte>): (ram: seq<Byte>)
    requires |before| + |image| < WRAP == |rest|
    ensures |ram| == WRAP && Holds(ram, |before|, image)
  {
    before + image + rest[..WRAP - |before| - |image|]
  }

  /** An image packed, left anywhere in memory, mounted and read by name: the asked-for part of the host's file for
      the two names packed, and nothing for any other name. */
  method PackMountRead(hello: Option<seq<Byte>>, test: Option<seq<Byte>>, stack0: seq<Byte>, stack1: seq<Byte>,
                       before: seq<Byte>, rest: seq<Byte>,
                       name: seq<Byte>, offset: nat, size: nat, buffer: array<Byte>)
    returns (r: Option<nat>, n: nat)
    requires |stack0| == |stack1| == HEADER && |rest| == WRAP && 0 in name
    requires |before| + 4 + 2 * HEADER + |ContentOf(hello)| + |ContentOf(test)| < WRAP
    requires offset + size < WRAP && size <= buffer.Length
    modifies buffer
    ensures n <= size
    ensures CString(name) == CString(HELLO) ==> r == Some(0) && buffer[..n] == Slice(ContentOf(hello), offset, size)
    ensures CString(name) == CString(TEST) ==> r == Some(1) && buffer[..n] == Slice(ContentOf(test), offset, size)
    ensures CString(name) != CString(HELLO) && CString(name) != CString(TEST) ==> r == None
  {
    ghost var headers, files;
    var ram;
    ram, headers, files := PackAndLoad(hello, test, stack0, stack1, before, rest);
    var disk := new RamDisk(ram);
    disk.ImageMounts(|before|, headers, files);
    disk.Initialize(|before|);
    r, n := disk.ReadNamed(name, offset, size, buffer, headers, files);
    NamesDiffer();
  }

  // ----- cat and ls

  const BLANK_LINE: seq<Byte> := [10, 0]
  const INDENT_CYAN: seq<Byte> := [0x20, 0x20, 0x0B, 0]
  const GREY_LINE: seq<Byte> := [7, 10, 0]

  /** cat of a file: its first 255 bytes, up to the first NUL among them, and a newline. A name that is not on the
      disk is printed back between two messages. */
  method Cat(disk: RamDisk, filename: seq<Byte>, notFound: seq<Byte>, inRoot: seq<Byte>,
             ghost headers: seq<Header>, ghost files: seq<File>)
    returns (effects: seq<Effect>)
    requires disk.Serves(headers, files) && 0 in filename && 0 in notFound && 0 in inRoot
    ensures forall e :: e in effects ==> IsEffect(e)
    ensures forall i :: 0 <= i < |files| && files[i].name == CString(filename)
                        && (forall j :: 0 <= j < i ==> files[j].name != files[i].name) ==>
              |effects| == 2 && effects[0].Show? && effects[1] == Show(BLANK_LINE)
              && CString(effects[0].str) == CString(Slice(files[i].content, 0, 255))
    ensures (forall i :: 0 <= i < |files| ==> files[i].name != CString(filename)) ==>
              effects == [Show(notFound), Show(filename), Show(inRoot)]
  {
    var buffer := new Byte[256];
    var r, n := disk.ReadNamed(filename, 0, 255, buffer, headers, files);
    if r.None? {
      effects := [Show(notFound), Show(filename), Show(inRoot)];
    } else {
      ghost var got := buffer[..n];
      buffer[n] := 0;
      assert buffer[..n] == got;
      Terminated(buffer[..], n);
      effects := [Show(buffer[..]), Show(BLANK_LINE)];
    }
  }

  /** A NUL put after n bytes ends the string there at the latest. */
  lemma Terminated(str: seq<Byte>, n: nat)
    requires n < |str| && str[n] == 0
    ensures 0 in str && CString(str) == CString(str[..n])
  {
    CStringEnds(str);
    CStringEnds(str[..n]);
    var m := |CString(str[..n])|;
    assert str[..n][..m] == str[..m];
    assert str[m] == 0;
    assert forall k :: 0 <= k < m ==> str[k] == str[..n][k];
    CStringIs(str, m);
  }

  /** Three strings a file: an indent that switches to cyan, the name, and a switch to grey with a newline. */
  ghost predicate Lists(effects: seq<Effect>, files: seq<File>)
    decreases |files|
  {
    if files == [] then effects == []
    else
      var n, last := |effects| - 3, |files| - 1;
      && n >= 0 && Lists(effects[..n], files[..last])
      && effects[n] == Show(INDENT_CYAN) && effects[n + 2] == Show(GREY_LINE)
      && effects[n + 1].Show? && IsEffect(effects[n + 1]) && CString(effects[n + 1].str) == files[last].name
  }

  lemma ListsNext(effects: seq<Effect>, files: seq<File>, i: nat, name: seq<Byte>)
    requires i < |files| && Lists(effects, files[..i]) && 0 in name && CString(name) == files[i].name
    ensures Lists(effects + [Show(INDENT_CYAN), Show(name), Show(GREY_LINE)], files[..i + 1])
  {
    var all := effects + [Show(INDENT_CYAN), Show(name), Show(GREY_LINE)];
    assert all[..|all| - 3] == effects && files[..i + 1][..i] == files[..i];
  }

  /** ls: every file's name, in the order they were packed, and then an end. */
  method Ls(disk: RamDisk, ghost headers: seq<Header>, ghost files: seq<File>) returns (effects: seq<Effect>)
    requires disk.Serves(headers, files)
    modifies disk`direntInode, disk.direntName
    ensures Lists(effects, files)
  {
    disk.NodesAreFiles(headers, files);
    var i := 0;
    effects := [];
    var found := disk.ReadDir(i);
    while found
      invariant disk.Serves(headers, files) && 0 <= i <= |files| && found == (i < |files|)
      invariant found ==> 0 in disk.direntName[..] && CString(disk.direntName[..]) == files[i].name
      invariant Lists(effects, files[..i])
      decreases |files| - i
    {
      ListsNext(effects, files, i, disk.direntName[..]);
      effects := effects + [Show(INDENT_CYAN), Show(disk.direntName[..]), Show(GREY_LINE)];
      i := i + 1;
      disk.NodesAreFiles(headers, files);
      found := disk.ReadDir(i);
    }
    assert files[..i] == files;
  }
}
