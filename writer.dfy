/** The archive writer: create_zip of zipper.c and nestedzipper.c (to a file) and
    create_zip_to_memory of nestedzipper.c (to a caller's buffer) share one algorithm. A
    first loop writes, for every entry, its local header, name and content, and keeps the
    central header it will need, pointing at the position where the local header went;
    it also sums the directory size. A second loop writes the kept central headers, each
    followed by its name, and the end record closes the archive. The writes are exactly
    the bytes of `Archive.ArchiveBytes` for the stream position the sink starts at. */
module Writer {
  import opened Common
  import opened Headers
  import opened DosTime
  import opened Entries
  import opened Archive
  import opened Sinks
  import Crc32

  /** The slot a zero-filled allocation gives each of the kept central headers. */
  const ZeroCentral := CentralDirectoryHeader(0, 0, 0, 0, 0, 0, 0, 0, 0, 0, 0, 0, 0, 0, 0, 0, 0)

  /** The sink has received the first `sink.offset - b0` bytes of `z` since it stood at
      `b0` with `w0` written; a buffer outside the span written since still holds what
      `before` says. */
  ghost predicate Progress(sink: Sink, z: seq<byte>, w0: seq<byte>, b0: nat, before: seq<byte>)
    reads sink, sink.buffer
  {
    sink.Valid() && b0 <= sink.offset && sink.offset - b0 <= |z|
    && sink.written == w0 + z[..sink.offset - b0]
    && (sink.bounded ==>
      |before| == sink.buffer.Length && sink.offset <= |before|
      && sink.buffer[..b0] == before[..b0] && sink.buffer[sink.offset..] == before[sink.offset..])
  }

  lemma PrefixGrow(z: seq<byte>, k: nat, data: seq<byte>, m: nat)
    requires m == k + |data| <= |z| && z[k..m] == data
    ensures z[..k] + data == z[..m]
  {
    assert z[..m] == z[..k] + z[k..m];
  }

  /** One write of the next `|data|` bytes of `z`. */
  method Emit(sink: Sink, data: seq<byte>, ghost z: seq<byte>, ghost w0: seq<byte>,
      ghost b0: nat, ghost before: seq<byte>, ghost k: nat)
    returns (ok: bool)
    requires Progress(sink, z, w0, b0, before) && k == sink.offset - b0
    requires k + |data| <= |z| && z[k..k + |data|] == data
    modifies sink, sink.buffer
    ensures Progress(sink, z, w0, b0, before)
    ensures ok == (!sink.bounded || old(sink.offset) + |data| <= sink.buffer.Length)
    ensures ok ==> sink.offset == old(sink.offset) + |data|
    ensures !ok ==> sink.offset == old(sink.offset)
  {
    ghost var buf := sink.buffer[..];
    ghost var o := sink.offset;
    ok := sink.Write(data);
    if ok {
      PrefixGrow(z, k, data, k + |data|);
      if sink.bounded {
        assert sink.buffer[..b0] == sink.buffer[..o][..b0];
        assert sink.buffer[sink.offset..] == buf[sink.offset..] by {
          assert buf[sink.offset..] == buf[o..][|data|..];
        }
        assert before[sink.offset..] == before[o..][|data|..];
      }
    }
  }

  /** A C string's length, as MyStrLen measures it on the NUL-terminated copy
      createZipFile made. */
  method MeasureString(s: seq<byte>) returns (n: nat)
    requires NulFree(s)
    ensures n == |s|
  {
    CStringOfTerminated(s, []);
    assert s + [0] + [] == s + [0];
    n := MyStrLen(s + [0]);
  }

  /** The first loop's work for entry `f`: fill in its local header (content length from
      MyStrLen for zipper.c's text entries, from the stored size otherwise; CRC-32 of the
      content; the fixed DOS stamp) and write it, the name and the content. */
  method WriteLocal(sink: Sink, f: ZipFile, textContent: bool, ghost z: seq<byte>,
      ghost w0: seq<byte>, ghost b0: nat, ghost before: seq<byte>, ghost k: nat)
    returns (ok: bool, local: LocalFileHeader)
    requires Progress(sink, z, w0, b0, before) && k == sink.offset - b0
    requires ValidEntry(f) && LocalAt(z, k, f)
    requires textContent ==> NulFree(f.content)
    modifies sink, sink.buffer
    ensures Progress(sink, z, w0, b0, before)
    ensures local == LocalHeaderFor(f)
    ensures ok == (!sink.bounded
      || old(sink.offset) + LocalSize + |f.filename| + |f.content| <= sink.buffer.Length)
    ensures ok ==> sink.offset == old(sink.offset) + LocalSize + |f.filename| + |f.content|
    ensures !ok ==> sink.offset < old(sink.offset) + LocalSize + |f.filename| + |f.content|
  {
    var filename := f.filename;
    var fileContent := f.content;
    var fileSize: nat;
    if textContent {
      fileSize := MeasureString(fileContent);
    } else {
      fileSize := |fileContent|;
    }
    assert fileContent[..fileSize] == fileContent;
    var crc := Crc32.Compute(Octets(fileContent[..fileSize]));
    var filenameLength := MeasureString(filename);
    local := LocalFileHeader(LocalSignature, 20, 0, 0, GetDosTime(), GetDosDate(), crc as int,
      fileSize, fileSize, filenameLength, 0);
    ghost var n := k + LocalSize;
    ghost var c := n + |filename|;
    ok := Emit(sink, EncodeLocal(local), z, w0, b0, before, k);
    if !ok {
      return;
    }
    ok := Emit(sink, filename[..filenameLength], z, w0, b0, before, n);
    if !ok {
      return;
    }
    ok := Emit(sink, fileContent[..fileSize], z, w0, b0, before, c);
  }

  /** One pass of the first loop, for entry `i`: write it at the cursor
      `centralDirStart` and prepare its central header, which copies the local header's
      stamp, CRC, sizes and name length and points back at `centralDirStart`. */
  method WriteEntry(sink: Sink, files: seq<ZipFile>, i: nat, textContent: bool,
      centralDirStart: nat,
      ghost z: seq<byte>, ghost w0: seq<byte>, ghost b0: nat, ghost before: seq<byte>)
    returns (ok: bool, centralHeader: CentralDirectoryHeader)
    requires Progress(sink, z, w0, b0, before)
    requires ValidEntries(files) && EntriesAt(z, files) && i < |files|
    requires centralDirStart == sink.offset == b0 + EntriesSize(files[..i])
    requires textContent ==> NulFree(files[i].content)
    modifies sink, sink.buffer
    ensures Progress(sink, z, w0, b0, before)
    ensures centralHeader == CentralHeaders(files, b0)[i]
    ensures ok ==> sink.offset == b0 + EntriesSize(files[..i + 1])
    ensures !ok ==> sink.bounded && sink.offset < b0 + EntriesSize(files)
                    && sink.buffer.Length < b0 + EntriesSize(files)
  {
    ghost var k := EntriesSize(files[..i]);
    assert LocalAt(z, k, files[i]);
    EntriesSizeSnoc(files, i);
    PrefixSizes(files, i + 1);
    var local;
    ok, local := WriteLocal(sink, files[i], textContent, z, w0, b0, before, k);
    centralHeader := CentralDirectoryHeader(CentralSignature, 20, 20, 0, 0,
      local.modTime, local.modDate, local.crc32, local.compressedSize,
      local.uncompressedSize, local.filenameLength, 0, 0, 0, 0, 0, Trunc32(centralDirStart));
    CentralHeaderAt(files, b0, i, centralDirStart);
  }

  /** The second loop's work for one entry: its kept central header, then
      `filenameLength` bytes of its name. */
  method WriteCentral(sink: Sink, h: CentralDirectoryHeader, f: ZipFile, ghost off: nat,
      ghost z: seq<byte>, ghost w0: seq<byte>, ghost b0: nat, ghost before: seq<byte>,
      ghost k: nat)
    returns (ok: bool)
    requires Progress(sink, z, w0, b0, before) && k == sink.offset - b0
    requires ValidEntry(f) && h == CentralHeaderFor(f, off) && CentralAt(z, k, f, off)
    modifies sink, sink.buffer
    ensures Progress(sink, z, w0, b0, before)
    ensures ok == (!sink.bounded || old(sink.offset) + CentralSize
      + |f.filename| <= sink.buffer.Length)
    ensures ok ==> sink.offset == old(sink.offset) + CentralSize + |f.filename|
    ensures !ok ==> sink.offset < old(sink.offset) + CentralSize + |f.filename|
  {
    ok := Emit(sink, EncodeCentral(h), z, w0, b0, before, k);
    if !ok {
      return;
    }
    assert f.filename[..h.filenameLength] == f.filename;
    ok := Emit(sink, f.filename[..h.filenameLength], z, w0, b0, before, k + CentralSize);
  }

  /** The first loop: for every entry, write its local header, name and content at the
      cursor, keep the central header that points back there and add 46 plus the name
      length to the directory size. nestedzipper.c carries the cursor before each entry
      in `centralDirStart`, resetting it after every entry; zipper.c reads the same value
      with SetFilePointer. After the loop `centralDirStart` is where the directory begins. */
  method WriteEntries(sink: Sink, files: seq<ZipFile>, textContent: bool,
      centralHeaders: array<CentralDirectoryHeader>,
      ghost z: seq<byte>, ghost w0: seq<byte>, ghost b0: nat, ghost before: seq<byte>)
    returns (ok: bool, centralDirSize: nat, centralDirStart: nat)
    requires Progress(sink, z, w0, b0, before) && sink.offset == b0
    requires ValidEntries(files) && EntriesAt(z, files) && centralHeaders.Length == |files|
    requires textContent ==> forall i :: 0 <= i < |files| ==> NulFree(files[i].content)
    modifies sink, sink.buffer, centralHeaders
    ensures Progress(sink, z, w0, b0, before)
    ensures ok ==> sink.offset == centralDirStart == b0 + EntriesSize(files)
    ensures ok ==> centralDirSize == CentralDirSize(files)
    ensures ok ==> centralHeaders[..] == CentralHeaders(files, b0)
    ensures !ok ==> sink.bounded && sink.offset < b0 + EntriesSize(files)
                    && sink.buffer.Length < b0 + EntriesSize(files)
  {
    ok := true;
    centralDirSize := 0;
    centralDirStart := sink.Position();
    assert files[..0] == [];
    for i := 0 to |files|
      invariant Progress(sink, z, w0, b0, before)
      invariant sink.offset == centralDirStart == b0 + EntriesSize(files[..i])
      invariant centralDirSize == CentralDirSize(files[..i])
      invariant centralHeaders[..i] == CentralHeaders(files, b0)[..i]
    {
      var centralHeader;
      ok, centralHeader := WriteEntry(sink, files, i, textContent, centralDirStart, z, w0, b0,
        before);
      if !ok {
        return;
      }
      ghost var h := CentralHeaders(files, b0)[i];
      centralHeaders[i] := centralHeader;
      assert centralHeaders[..i + 1] == centralHeaders[..i] + [h];
      assert CentralHeaders(files, b0)[..i + 1] == CentralHeaders(files, b0)[..i] + [h];
      centralDirSize := centralDirSize + CentralSize + |files[i].filename|;
      centralDirStart := sink.Position();
      CentralDirSizeSnoc(files, i);
    }
    assert files[..|files|] == files;
    assert centralHeaders[..] == centralHeaders[..|files|];
  }

  /** The second loop: every kept central header, each followed by its name. */
  method WriteDirectory(sink: Sink, files: seq<ZipFile>,
      centralHeaders: array<CentralDirectoryHeader>,
      ghost z: seq<byte>, ghost w0: seq<byte>, ghost b0: nat, ghost before: seq<byte>)
    returns (ok: bool)
    requires Progress(sink, z, w0, b0, before)
    requires ValidEntries(files) && DirectoryAt(z, files, b0) && centralHeaders.Length == |files|
    requires sink.offset == b0 + EntriesSize(files)
    requires centralHeaders[..] == CentralHeaders(files, b0)
    modifies sink, sink.buffer
    ensures Progress(sink, z, w0, b0, before)
    ensures ok ==> sink.offset == b0 + EntriesSize(files) + CentralDirSize(files)
    ensures !ok ==> sink.bounded && sink.offset < b0 + EntriesSize(files) + CentralDirSize(files)
                    && sink.buffer.Length < b0 + EntriesSize(files) + CentralDirSize(files)
  {
    ok := true;
    assert files[..0] == [];
    for i := 0 to |files|
      invariant Progress(sink, z, w0, b0, before)
      invariant sink.offset == b0 + EntriesSize(files) + CentralDirSize(files[..i])
    {
      ghost var p := CentralPosition(files, i);
      ghost var off := EntryOffset(files, b0, i);
      assert CentralAt(z, p, files[i], off);
      CentralDirSizeSnoc(files, i);
      PrefixSizes(files, i + 1);
      assert centralHeaders[i] == CentralHeaders(files, b0)[i];
      ok := WriteCentral(sink, centralHeaders[i], files[i], off, z, w0, b0, before, p);
      if !ok {
        return;
      }
    }
    assert files[..|files|] == files;
  }

  /** The end of central directory record: one disk, the entry count twice, the summed
      directory size and the directory's start. */
  method WriteEnd(sink: Sink, files: seq<ZipFile>, centralDirSize: nat, centralDirStart: nat,
      ghost z: seq<byte>, ghost w0: seq<byte>, ghost b0: nat, ghost before: seq<byte>)
    returns (ok: bool)
    requires Progress(sink, z, w0, b0, before)
    requires ValidEntries(files) && EocdAt(z, EocdFor(files, b0))
    requires |z| == EntriesSize(files) + CentralDirSize(files) + EocdSize
    requires centralDirSize == CentralDirSize(files) && centralDirStart == b0 + EntriesSize(files)
    requires sink.offset == centralDirStart + centralDirSize
    modifies sink, sink.buffer
    ensures Progress(sink, z, w0, b0, before)
    ensures ok == (!sink.bounded || b0 + |z| <= sink.buffer.Length)
    ensures ok ==> sink.offset == b0 + |z|
    ensures !ok ==> sink.offset < b0 + |z|
  {
    var eocd := EndOfCentralDirectory(EocdSignature, 0, 0, Trunc16(|files|), Trunc16(|files|),
      Trunc32(centralDirSize), Trunc32(centralDirStart), 0);
    assert eocd == EocdFor(files, b0);
    ok := Emit(sink, EncodeEocd(eocd), z, w0, b0, before, |z| - EocdSize);
  }

  /** The shared body of create_zip and create_zip_to_memory. The sink receives a prefix
      of the archive for the position it starts at (`Progress`); all of it exactly when
      the sink is a file or the buffer has room for all of it, and then `ok` holds. A
      buffer keeps every byte outside the span written. */
  method WriteArchive(sink: Sink, files: seq<ZipFile>, textContent: bool) returns (ok: bool)
    requires sink.Valid() && ValidEntries(files)
    requires sink.bounded ==> forall i :: 0 <= i < |files| ==> |files[i].filename| < 0x8000
    requires textContent ==> forall i :: 0 <= i < |files| ==> NulFree(files[i].content)
    modifies sink, sink.buffer
    ensures Progress(sink, ArchiveBytes(files, old(sink.offset)), old(sink.written),
      old(sink.offset), old(sink.buffer[..]))
    ensures ok == (!sink.bounded || old(sink.offset) + |ArchiveBytes(files,
      old(sink.offset))| <= sink.buffer.Length)
    ensures ok ==> sink.offset == old(sink.offset) + |ArchiveBytes(files, old(sink.offset))|
    ensures !ok ==> sink.offset < old(sink.offset) + |ArchiveBytes(files, old(sink.offset))|
  {
    ghost var b0 := sink.offset;
    ghost var w0 := sink.written;
    ghost var before := sink.buffer[..];
    ghost var z := ArchiveBytes(files, b0);
    ArchiveSize(files, b0);
    EntriesAtArchive(files, b0);
    DirectoryAtArchive(files, b0);
    EocdAtArchive(files, b0, z);
    var centralHeaders := new CentralDirectoryHeader[|files|](_ => ZeroCentral);
    var centralDirSize, centralDirStart;
    ok, centralDirSize, centralDirStart := WriteEntries(sink, files, textContent,
      centralHeaders, z, w0, b0, before);
    if !ok {
      return;
    }
    ok := WriteDirectory(sink, files, centralHeaders, z, w0, b0, before);
    if !ok {
      return;
    }
    ok := WriteEnd(sink, files, centralDirSize, centralDirStart, z, w0, b0, before);
  }

  /** create_zip: a fresh file receives the whole archive, its offsets counted from the
      start of the file. `textContent` selects zipper.c, which measures each content
      with MyStrLen; nestedzipper.c stores the given size. */
  method CreateZip(files: seq<ZipFile>, textContent: bool) returns (file: seq<byte>)
    requires ValidEntries(files)
    requires textContent ==> forall i :: 0 <= i < |files| ==> NulFree(files[i].content)
    ensures file == ArchiveBytes(files, 0)
  {
    var sink := new Sink.Append();
    var ok := WriteArchive(sink, files, textContent);
    file := sink.file;
  }

  /** create_zip_to_memory: the archive for a stream starting at `offset` goes into
      `buffer` from there. It succeeds exactly when it fits; then the cursor has moved
      past it. Otherwise the cursor stops after the last write that fitted and the bytes
      before it are a proper prefix of the archive. Nothing outside the written span
      changes. */
  method CreateZipToMemory(buffer: array<byte>, offset: nat, files: seq<ZipFile>)
    returns (ok: bool, newOffset: nat)
    requires offset <= buffer.Length && ValidEntries(files)
    requires forall i :: 0 <= i < |files| ==> |files[i].filename| < 0x8000
    modifies buffer
    ensures var z := ArchiveBytes(files, offset);
      && ok == (offset + |z| <= buffer.Length)
      && offset <= newOffset <= buffer.Length && newOffset - offset <= |z|
      && buffer[..] == old(buffer[..])[..offset] + z[..newOffset - offset]
        + old(buffer[..])[newOffset..]
      && (ok ==> newOffset == offset + |z|)
      && (!ok ==> newOffset < offset + |z|)
  {
    ghost var before := buffer[..];
    ghost var z := ArchiveBytes(files, offset);
    var sink := new Sink.Bounded(buffer, offset);
    ok := WriteArchive(sink, files, false);
    newOffset := sink.offset;
    ThreeParts(buffer[..], before, offset, newOffset, z[..newOffset - offset]);
  }

  /** A buffer that matches `before` outside `[p, q)` and holds `mid` inside it. */
  lemma ThreeParts(buf: seq<byte>, before: seq<byte>, p: nat, q: nat, mid: seq<byte>)
    requires p <= q <= |buf| == |before| && buf[..p] == before[..p] && buf[p..q] == mid
    requires buf[q..] == before[q..]
    ensures buf == before[..p] + mid + before[q..]
  {
    assert buf == buf[..p] + buf[p..q] + buf[q..];
  }
}
