/** Archive entries and the C-string helpers that build them: MyStrLen, MyStrcpy and the
    two createZipFile functions (the text one of zipper.c, the binary one of
    nestedzipper.c). A C string is modelled as the bytes that memory holds from the
    pointer on; the string itself is the part before the first NUL. */
module Entries {
  import opened Common

  /** One file to store: its name and its bytes. The name is kept without its NUL
      terminator; the content is a byte string of its own length. */
  datatype ZipFile = ZipFile(filename: seq<byte>, content: seq<byte>)

  predicate NulFree(s: seq<byte>)
  {
    forall i :: 0 <= i < |s| ==> s[i] != 0
  }

  /** What both writers can store faithfully: a name that is a C string whose length fits
      the 16-bit header field, and a content whose length fits the `int size` of an
      entry (and so the 32-bit size fields). */
  predicate ValidEntry(f: ZipFile)
  {
    NulFree(f.filename) && |f.filename| < 0x1_0000 && |f.content| < 0x8000_0000
  }

  /** The C string stored at the start of `s`: the bytes before the first NUL, or all of
      `s` when it holds no NUL. */
  function CString(s: seq<byte>): (r: seq<byte>)
    ensures r <= s && NulFree(r)
    ensures |r| < |s| ==> s[|r|] == 0
    ensures 0 in s ==> |r| < |s|
  {
    if s == [] || s[0] == 0 then [] else [s[0]] + CString(s[1..])
  }

  /** A NUL-free string stored with its terminator reads back as itself, whatever memory
      holds after the terminator. */
  lemma {:induction false} CStringOfTerminated(s: seq<byte>, rest: seq<byte>)
    requires NulFree(s)
    ensures CString(s + [0] + rest) == s
  {
    if s != [] {
      assert (s + [0] + rest)[1..] == s[1..] + [0] + rest;
      CStringOfTerminated(s[1..], rest);
    }
  }

  function Min(a: nat, b: nat): nat
  {
    if a < b then a else b
  }

  /** MyStrLen: counts the bytes before the first NUL. The terminator must be there:
      without one the C loop reads past the end of the string. */
  method MyStrLen(str: seq<byte>) returns (len: nat)
    requires 0 in str
    ensures len == |CString(str)|
    ensures len < |str| && str[len] == 0 && NulFree(str[..len])
  {
    ghost var c := CString(str);
    len := 0;
    while str[len] != 0
      invariant len <= |c|
      decreases |c| - len
    {
      len := len + 1;
    }
    assert str[..len] == c[..len];
  }

  /** MyStrcpy: copies the string at `src` into `dest`, at most `maxLen - 1` bytes, and
      NUL-terminates the copy; the rest of `dest` is untouched. `maxLen` is the capacity
      of `dest`, and `src` must hold a NUL or at least `maxLen - 1` readable bytes. */
  method MyStrcpy(dest: array<byte>, src: seq<byte>, maxLen: nat)
    requires 1 <= maxLen <= dest.Length
    requires 0 in src || maxLen - 1 <= |src|
    modifies dest
    ensures var n := Min(|CString(src)|, maxLen - 1);
      dest[..] == src[..n] + [0] + old(dest[n + 1..])
  {
    ghost var c := CString(src);
    var i := 0;
    while i < maxLen - 1 && src[i] != 0
      invariant i <= |c| && i <= maxLen - 1
      invariant forall k :: 0 <= k < i ==> dest[k] == src[k]
      invariant forall k :: i <= k < dest.Length ==> dest[k] == old(dest[k])
    {
      dest[i] := src[i];
      i := i + 1;
    }
    dest[i] := 0;
    assert i == Min(|c|, maxLen - 1);
    assert dest[..] == src[..i] + [0] + old(dest[i + 1..]);
  }

  /** createZipFile of zipper.c: copies the name and the text content, each up to its
      first NUL, into fresh zeroed storage. */
  method CreateTextZipFile(fname: seq<byte>, fcontent: seq<byte>) returns (zf: ZipFile)
    requires 0 in fname && 0 in fcontent
    ensures zf == ZipFile(CString(fname), CString(fcontent))
    ensures NulFree(zf.filename) && NulFree(zf.content)
  {
    var fnameLen := MyStrLen(fname);
    var fcontentLen := MyStrLen(fcontent);
    var nameBuffer := new byte[fnameLen + 1](_ => 0);
    var contentBuffer := new byte[fcontentLen + 1](_ => 0);
    MyStrcpy(nameBuffer, fname, fnameLen + 1);
    MyStrcpy(contentBuffer, fcontent, fcontentLen + 1);
    zf := ZipFile(nameBuffer[..fnameLen], contentBuffer[..fcontentLen]);
  }

  /** createZipFile of nestedzipper.c: copies the name up to its first NUL and exactly
      `size` content bytes, NULs included, so any byte string (an archive, say) can be
      stored. */
  method CreateZipFile(fname: seq<byte>, fcontent: seq<byte>, size: nat) returns (zf: ZipFile)
    requires 0 in fname && size <= |fcontent|
    ensures zf == ZipFile(CString(fname), fcontent[..size])
    ensures NulFree(zf.filename)
  {
    var fnameLen := MyStrLen(fname);
    var nameBuffer := new byte[fnameLen + 1](_ => 0);
    var contentBuffer := new byte[size](_ => 0);
    MyStrcpy(nameBuffer, fname, fnameLen + 1);
    assert nameBuffer[..fnameLen] == CString(fname);
    ghost var name := nameBuffer[..];
    for i := 0 to size
      invariant contentBuffer[..i] == fcontent[..i]
      invariant nameBuffer[..] == name
    {
      contentBuffer[i] := fcontent[i];
      assert contentBuffer[..i + 1] == contentBuffer[..i] + [fcontent[i]];
      assert fcontent[..i + 1] == fcontent[..i] + [fcontent[i]];
    }
    assert contentBuffer[..] == contentBuffer[..size];
    zf := ZipFile(nameBuffer[..fnameLen], contentBuffer[..]);
  }
}
