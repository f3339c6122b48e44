/** string.c: NUL-terminated strings in byte buffers. */
module CStrings {
  type Byte = b: int | 0 <= b < 256

  /** The bytes before the first NUL, or all of them. */
  ghost function CString(str: seq<Byte>): seq<Byte> {
    if str == [] || str[0] == 0 then [] else [str[0]] + CString(str[1..])
  }

  /** The text is a prefix without NUL, and what follows it is the NUL or the end. */
  lemma {:induction false} CStringEnds(str: seq<Byte>)
    ensures var n := |CString(str)|;
            && n <= |str| && CString(str) == str[..n]
            && (forall k :: 0 <= k < n ==> str[k] != 0)
            && (n < |str| ==> str[n] == 0)
  {
    if str != [] && str[0] != 0 {
      var rest := str[1..];
      CStringEnds(rest);
      var n := |CString(rest)|;
      assert str[..n + 1] == [str[0]] + rest[..n];
      assert forall k :: 1 <= k < n + 1 ==> str[k] == rest[k - 1];
    }
  }

  lemma Terminator(str: seq<Byte>) returns (end: nat)
    requires 0 in str
    ensures end < |str| && str[end] == 0 && end == |CString(str)| && CString(str) == str[..end]
    ensures forall k :: 0 <= k < end ==> str[k] != 0
  {
    CStringEnds(str);
    end := |CString(str)|;
  }

  lemma CStringIs(str: seq<Byte>, i: nat)
    requires i < |str| && str[i] == 0 && 0 !in str[..i]
    ensures CString(str) == str[..i]
  {
    CStringEnds(str);
    assert forall k :: 0 <= k < i ==> str[k] == str[..i][k];
  }

  // ----- strncpy and strcpy

  /** Byte k of the text, NUL from its end on. */
  ghost function Padded(text: seq<Byte>, k: nat): Byte {
    if k < |text| then text[k] else 0
  }

  /** Exactly n bytes are written: the text, cut off at n, then NULs. A NUL is among them exactly when the text is
      shorter than n. */
  method Strncpy(dest: array<Byte>, src: seq<Byte>, n: nat)
    requires n <= dest.Length && (n <= |src| || 0 in src)
    modifies dest
    ensures forall k :: 0 <= k < n ==> dest[k] == Padded(CString(src), k)
    ensures forall k :: n <= k < dest.Length ==> dest[k] == old(dest[k])
  {
    CStringEnds(src);
    ghost var text := CString(src);
    var i := 0;
    while i < n && src[i] != 0
      invariant 0 <= i <= n && i <= |text|
      invariant forall k :: 0 <= k < i ==> dest[k] == text[k]
      invariant forall k :: i <= k < dest.Length ==> dest[k] == old(dest[k])
    {
      dest[i] := src[i];
      i := i + 1;
    }
    while i < n
      invariant 0 <= i <= n
      invariant forall k :: 0 <= k < i ==> dest[k] == Padded(text, k)
      invariant forall k :: n <= k < dest.Length ==> dest[k] == old(dest[k])
    {
      dest[i] := 0;
      i := i + 1;
    }
  }

  /** The text and its NUL, and nothing beyond. */
  method Strcpy(dest: array<Byte>, src: seq<Byte>)
    requires 0 in src && |CString(src)| < dest.Length
    modifies dest
    ensures 0 in dest[..] && CString(dest[..]) == CString(src)
    ensures forall k :: |CString(src)| < k < dest.Length ==> dest[k] == old(dest[k])
  {
    ghost var end := Terminator(src);
    var i := 0;
    while src[i] != 0
      invariant 0 <= i <= end
      invariant dest[..i] == src[..i]
      invariant forall k :: i <= k < dest.Length ==> dest[k] == old(dest[k])
      decreases end - i
    {
      dest[i] := src[i];
      i := i + 1;
    }
    dest[i] := 0;
    CopyEnds(dest[..], src, end);
  }

  lemma CopyEnds(dest: seq<Byte>, src: seq<Byte>, end: nat)
    requires end < |dest| && end < |src| && dest[..end] == src[..end] && dest[end] == 0 == src[end]
    requires forall k :: 0 <= k < end ==> src[k] != 0
    ensures 0 in dest && CString(dest) == CString(src)
  {
    CStringIs(src, end);
    CStringIs(dest, end);
  }

  // ----- strcmp

  /** Dictionary order on unsigned bytes, a proper prefix first. */
  ghost predicate Precedes(a: seq<Byte>, b: seq<Byte>) {
    if a == [] then b != []
    else b != [] && (a[0] < b[0] || (a[0] == b[0] && Precedes(a[1..], b[1..])))
  }

  lemma {:induction false} FirstDifference(a: seq<Byte>, b: seq<Byte>, i: nat)
    requires i <= |a| && i <= |b| && a[..i] == b[..i]
    ensures a == b <==> a[i..] == b[i..]
    ensures Precedes(a, b) <==> Precedes(a[i..], b[i..])
  {
    if i > 0 {
      assert a[0] == a[..i][0] == b[..i][0] == b[0];
      assert a[1..][..i - 1] == a[..i][1..] == b[..i][1..] == b[1..][..i - 1];
      FirstDifference(a[1..], b[1..], i - 1);
      assert a[1..][i - 1..] == a[i..] && b[1..][i - 1..] == b[i..];
      assert a == [a[0]] + a[1..] && b == [b[0]] + b[1..];
    } else {
      assert a[0..] == a && b[0..] == b;
    }
  }

  /** The three results exclude each other: the order is total. */
  lemma {:induction false} PrecedesTotal(a: seq<Byte>, b: seq<Byte>)
    ensures Precedes(a, b) || Precedes(b, a) || a == b
    ensures !(Precedes(a, b) && Precedes(b, a)) && !Precedes(a, a)
  {
    if a != [] {
      PrecedesTotal(a[1..], a[1..]);
    }
    if a != [] && b != [] {
      PrecedesTotal(a[1..], b[1..]);
      assert a == [a[0]] + a[1..] && b == [b[0]] + b[1..];
    }
  }

  /** Strings equal up to a byte that ends both or differs are told apart by that byte. */
  lemma ToldApart(s1: seq<Byte>, s2: seq<Byte>, i: nat)
    requires 0 in s1 && 0 in s2 && i <= |CString(s1)| && i <= |CString(s2)|
    requires i < |s1| && i < |s2| && s1[..i] == s2[..i] && (s1[i] == 0 || s1[i] != s2[i])
    ensures CString(s1) == CString(s2) <==> s1[i] == s2[i]
    ensures Precedes(CString(s1), CString(s2)) <==> s1[i] < s2[i]
  {
    var end1 := Terminator(s1);
    var end2 := Terminator(s2);
    var a, b := CString(s1), CString(s2);
    assert a[..i] == s1[..i] && b[..i] == s2[..i];
    FirstDifference(a, b, i);
    assert Padded(a[i..], 0) == s1[i] && Padded(b[i..], 0) == s2[i];
  }

  /** The first byte that differs, or the NUL that ends both strings. */
  ghost predicate ComparedAt(s1: seq<Byte>, s2: seq<Byte>, i: int) {
    && 0 <= i < |s1| && i < |s2| && s1[..i] == s2[..i] && 0 !in s1[..i] && (s1[i] == 0 || s1[i] != s2[i])
  }

  method Strcmp(s1: seq<Byte>, s2: seq<Byte>) returns (r: int)
    requires 0 in s1 && 0 in s2
    ensures r == 0 <==> CString(s1) == CString(s2)
    ensures r < 0 <==> Precedes(CString(s1), CString(s2))
    ensures exists i :: ComparedAt(s1, s2, i) && r == s1[i] as int - s2[i] as int
  {
    ghost var end1 := Terminator(s1);
    ghost var end2 := Terminator(s2);
    var i := 0;
    while s1[i] != 0 && s1[i] == s2[i]
      invariant 0 <= i <= end1 && i <= end2
      invariant s1[..i] == s2[..i]
      decreases end1 - i
    {
      i := i + 1;
    }
    ToldApart(s1, s2, i);
    assert ComparedAt(s1, s2, i);
    r := s1[i] as int - s2[i] as int;
  }
}
