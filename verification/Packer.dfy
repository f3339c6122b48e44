/** make_initrd.c: the image, written front to back. */
module Packer {
  import opened CStrings
  import opened Image
  import opened Wrappers

  /** "hello.txt" and "test.txt". */
  const HELLO_NAME: seq<Byte> := [0x68, 0x65, 0x6C, 0x6C, 0x6F, 0x2E, 0x74, 0x78, 0x74]
  const TEST_NAME: seq<Byte> := [0x74, 0x65, 0x73, 0x74, 0x2E, 0x74, 0x78, 0x74]
  const HELLO := HELLO_NAME + [0]
  const TEST := TEST_NAME + [0]

  lemma Names()
    ensures 0 in HELLO && CString(HELLO) == HELLO_NAME
    ensures 0 in TEST && CString(TEST) == TEST_NAME
  {
    CStringIs(HELLO, 9);
    CStringIs(TEST, 8);
  }

  /** The 140 bytes of a header: four that were on the stack, length and offset lowest byte first, the name with its
      NUL, and then the stack again. */
  ghost predicate HeaderIs(s: seq<Byte>, h: nat, stack: seq<Byte>, name: seq<Byte>, length: nat, offset: nat)
    requires |stack| == 140
  {
    && h + 140 <= |s| && |name| < 128
    && s[h..h + 4] == stack[..4] && LowestFirst(s, h + 4, length) && LowestFirst(s, h + 8, offset)
    && s[h + 12..h + 12 + |name|] == name && s[h + 12 + |name|] == 0
    && s[h + 13 + |name|..h + 140] == stack[13 + |name|..]
  }

  /** A host file that cannot be opened has size 0 and adds nothing. */
  function ContentOf(host: Option<seq<Byte>>): seq<Byte> {
    if host.Some? then host.value else []
  }

  /** dumpFileData: pieces of up to 4096 bytes, read and appended. */
  method DumpFileData(host: Option<seq<Byte>>, output: seq<Byte>) returns (written: seq<Byte>)
    ensures written == output + ContentOf(host)
  {
    written := output;
    if host.None? {
      return;
    }
    var content := host.value;
    var at: nat := 0;
    var bytesRead := Fread(content, at);
    while bytesRead > 0
      invariant at <= |content| && bytesRead == Fread(content, at)
      invariant written == output + content[..at]
      decreases |content| - at
    {
      written := Appended(output, written, content, at, bytesRead);
      at := at + bytesRead;
      bytesRead := Fread(content, at);
    }
    assert content[..at] == content;
  }

  /** How many bytes fread gives from a position on. */
  function Fread(content: seq<Byte>, at: nat): (n: nat)
    requires at <= |content|
    ensures at + n <= |content| && (n == 0 <==> at == |content|)
  {
    if |content| - at < 4096 then |content| - at else 4096
  }

  function Appended(output: seq<Byte>, written: seq<Byte>, content: seq<Byte>, at: nat, n: nat): (r: seq<Byte>)
    requires at + n <= |content| && written == output + content[..at]
    ensures r == output + content[..at + n]
  {
    assert content[..at] + content[at..at + n] == content[..at + n];
    written + content[at..at + n]
  }

  /** One entry of the headers array, on a stack that held the given bytes. */
  method MakeHeader(stack: seq<Byte>, name: seq<Byte>, length: nat, offset: nat) returns (h: Header)
    requires |stack| == HEADER && 0 in name && |CString(name)| < NAME && length < WRAP && offset < WRAP
    ensures FitsFields(h) && h.length == length && h.offset == offset && CString(h.name) == CString(name)
    ensures h.magic == stack[..4]
    ensures h.name[..|CString(name)|] == CString(name) && h.name[|CString(name)|] == 0
    ensures forall k :: |CString(name)| < k < NAME ==> h.name[k] == stack[12 + k]
  {
    var field := new Byte[NAME](i requires 0 <= i < NAME => stack[12 + i]);
    Strcpy(field, name);
    h := Header(stack[..4], length, offset, field[..]);
    CStringEnds(h.name);
  }

  /** The image of the two files of rootfs, whatever the stack held and whether or not they could be opened. */
  method MakeInitrd(hello: Option<seq<Byte>>, test: Option<seq<Byte>>, stack0: seq<Byte>, stack1: seq<Byte>)
    returns (output: seq<Byte>, ghost headers: seq<Header>, ghost files: seq<File>)
    requires |stack0| == |stack1| == HEADER
    requires 4 + 2 * HEADER + |ContentOf(hello)| + |ContentOf(test)| < WRAP
    ensures files == [File(CString(HELLO), ContentOf(hello)), File(CString(TEST), ContentOf(test))]
    ensures Describe(headers, files) && output == ImageOf(headers, files)
    ensures |output| == 284 + |ContentOf(hello)| + |ContentOf(test)|
    ensures output[..4] == [2, 0, 0, 0]
    ensures HeaderIs(output, 4, stack0, HELLO_NAME, |ContentOf(hello)|, 284)
    ensures HeaderIs(output, 144, stack1, TEST_NAME, |ContentOf(test)|, 284 + |ContentOf(hello)|)
    ensures output[284..] == ContentOf(hello) + ContentOf(test)
  {
    output := Bytes(2, 4);
    var offset := 4 + 2 * HEADER;
    Names();
    var h0 := MakeHeader(stack0, HELLO, |ContentOf(hello)|, offset);
    var h1 := MakeHeader(stack1, TEST, |ContentOf(test)|, offset + h0.length);
    output := output + (HeaderBytes(h0) + HeaderBytes(h1));
    ghost var table := output;
    output := DumpFileData(hello, output);
    output := DumpFileData(test, output);
    headers := [h0, h1];
    files := [File(CString(HELLO), ContentOf(hello)), File(CString(TEST), ContentOf(test))];
    TwoDescribed(h0, h1, files);
    TwoImage(h0, h1, files, output);
    Regroup(table, ContentOf(hello), ContentOf(test));
    HeaderWritten(h0, stack0, HELLO_NAME);
    HeaderWritten(h1, stack1, TEST_NAME);
    TwoWritten(h0, h1, ContentOf(hello), ContentOf(test), output);
    HeaderPlaced(HeaderBytes(h0), output, 4, stack0, HELLO_NAME, h0.length, h0.offset);
    HeaderPlaced(HeaderBytes(h1), output, 144, stack1, TEST_NAME, h1.length, h1.offset);
  }

  lemma HeaderWritten(h: Header, stack: seq<Byte>, name: seq<Byte>)
    requires FitsFields(h) && |stack| == 140 && h.magic == stack[..4]
    requires |name| < NAME && h.name[..|name|] == name && h.name[|name|] == 0
    requires forall k :: |name| < k < NAME ==> h.name[k] == stack[12 + k]
    ensures |HeaderBytes(h)| == 140 && HeaderIs(HeaderBytes(h), 0, stack, name, h.length, h.offset)
  {
    var b := HeaderBytes(h);
    BytesLowestFirst(h.length);
    BytesLowestFirst(h.offset);
    assert b[12..] == h.name;
    assert b[13 + |name|..] == stack[13 + |name|..];
  }

  lemma HeaderPlaced(b: seq<Byte>, s: seq<Byte>, at: nat, stack: seq<Byte>, name: seq<Byte>, length: nat, offset: nat)
    requires |stack| == |b| == 140 && HeaderIs(b, 0, stack, name, length, offset) && Holds(s, at, b)
    ensures HeaderIs(s, at, stack, name, length, offset)
  {
    assert forall k :: 0 <= k < 140 ==> b[k] == s[at + k];
  }

  lemma TwoWritten(h0: Header, h1: Header, hello: seq<Byte>, test: seq<Byte>, output: seq<Byte>)
    requires |HeaderBytes(h0)| == |HeaderBytes(h1)| == 140
    requires output == Bytes(2, 4) + (HeaderBytes(h0) + HeaderBytes(h1)) + hello + test
    ensures |output| >= 284 && output[..4] == [2, 0, 0, 0]
    ensures Holds(output, 4, HeaderBytes(h0)) && Holds(output, 144, HeaderBytes(h1))
  {
    BytesLowestFirst(2);
  }

  lemma TwoDescribed(h0: Header, h1: Header, files: seq<File>)
    requires |files| == 2 && FitsFields(h0) && FitsFields(h1)
    requires h0.offset == 4 + 2 * HEADER && h1.offset == h0.offset + h0.length
    requires h0.length == |files[0].content| && CString(h0.name) == files[0].name && |files[0].name| < NAME
    requires h1.length == |files[1].content| && CString(h1.name) == files[1].name && |files[1].name| < NAME
    ensures Describe([h0, h1], files)
  {
    TwoFiles(h0, h1, files);
    assert Describes(h0, files, 0) && Describes(h1, files, 1);
  }

  lemma TwoImage(h0: Header, h1: Header, files: seq<File>, output: seq<Byte>)
    requires |files| == 2
    requires output == Bytes(2, 4) + (HeaderBytes(h0) + HeaderBytes(h1)) + files[0].content + files[1].content
    ensures output == ImageOf([h0, h1], files)
  {
    TwoFiles(h0, h1, files);
    Regroup(Bytes(2, 4) + (HeaderBytes(h0) + HeaderBytes(h1)), files[0].content, files[1].content);
  }

  lemma Regroup<T>(a: seq<T>, b: seq<T>, c: seq<T>)
    ensures a + b + c == a + (b + c)
  {
  }

  /** The image of two files, spelled out. */
  lemma TwoFiles(h0: Header, h1: Header, files: seq<File>)
    requires |files| == 2
    ensures Table([h0, h1]) == HeaderBytes(h0) + HeaderBytes(h1)
    ensures Contents(files) == files[0].content + files[1].content
    ensures DataStart(files, 0) == 4 + 2 * HEADER
    ensures DataStart(files, 1) == 4 + 2 * HEADER + |files[0].content|
  {
    assert [h0, h1][..1] == [h0] && [h0][..0] == [];
    assert files[..1] == [files[0]] && files[..1][..0] == [] == files[..0];
    assert Table([h0]) == HeaderBytes(h0);
    assert Contents(files[..1]) == files[0].content;
  }
}
