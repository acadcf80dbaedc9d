/** Nested archives (nestedzipper.c): an inner archive is built in a heap buffer of fixed
    capacity, then stored, byte for byte, as one more entry of an outer archive. */
module Nested {
  import opened Common
  import opened Entries
  import opened Archive
  import opened Writer
  import opened Reader

  /** The capacity create_inner_zip_in_memory allocates for the inner archive: 1 MiB. */
  const InnerCapacity: nat := 1024 * 1024

  predicate ShortNames(fs: seq<ZipFile>)
  {
    forall i :: 0 <= i < |fs| ==> |fs[i].filename| < 0x8000
  }

  /** create_inner_zip_in_memory: a fresh zero-filled buffer of 1 MiB receives the inner
      archive from position 0. When the archive does not fit, the buffer is released and
      no buffer comes back (null); otherwise the buffer starts with the archive, is zero
      after it, and `zipSize` is its length. */
  method CreateInnerZipInMemory(innerFiles: seq<ZipFile>)
    returns (zipBuffer: array?<byte>, zipSize: nat)
    requires ValidEntries(innerFiles) && ShortNames(innerFiles)
    ensures var z := ArchiveBytes(innerFiles, 0);
      && (zipBuffer != null <==> |z| <= InnerCapacity)
      && (zipBuffer != null ==>
            fresh(zipBuffer) && zipBuffer.Length == InnerCapacity && zipSize == |z|
            && zipBuffer[..] == z + seq(InnerCapacity - |z|, _ => 0))
  {
    var buffer := new byte[InnerCapacity](_ => 0);
    ghost var zeros := buffer[..];
    var ok, writeOffset := CreateZipToMemory(buffer, 0, innerFiles);
    if !ok {
      return null, 0;
    }
    Filled(buffer[..], zeros, ArchiveBytes(innerFiles, 0), writeOffset);
    zipBuffer, zipSize := buffer, writeOffset;
  }

  /** A zero-filled buffer that received all of `z` from position 0 is `z` followed by
      zeros. */
  lemma Filled(buf: seq<byte>, zeros: seq<byte>, z: seq<byte>, n: nat)
    requires n == |z| <= |zeros| && (forall i :: 0 <= i < |zeros| ==> zeros[i] == 0)
    requires buf == zeros[..0] + z[..n] + zeros[n..]
    ensures buf == z + seq(|zeros| - n, _ => 0)
  {
    assert z[..n] == z;
  }

  /** The entry that holds an inner archive: its name is the C string `nestedName`, its
      content the archive's bytes. */
  function NestedEntry(nestedName: seq<byte>, inner: seq<ZipFile>): (f: ZipFile)
    requires ValidEntries(inner)
    ensures f.content == ArchiveBytes(inner, 0) && f.filename <= nestedName
  {
    ZipFile(CString(nestedName), ArchiveBytes(inner, 0))
  }

  /** The binary createZipFile call that wraps the inner archive: the entry is named by the
      C string `nestedName` and holds the first `zipSize` bytes of the 1 MiB buffer, which
      are exactly the inner archive; the zeros after it stay behind. Its content reads back
      as the inner entries. */
  method WrapInnerZip(nestedName: seq<byte>, zipBuffer: array<byte>, zipSize: nat,
      ghost innerFiles: seq<ZipFile>)
    returns (nested: ZipFile)
    requires ValidEntries(innerFiles) && 0 in nestedName
    requires zipSize <= zipBuffer.Length && zipBuffer[..zipSize] == ArchiveBytes(innerFiles, 0)
    ensures nested.filename == CString(nestedName) && nested.content == zipBuffer[..zipSize]
    ensures nested == NestedEntry(nestedName, innerFiles)
    ensures |innerFiles| < 0x1_0000
      && EntriesSize(innerFiles) + CentralDirSize(innerFiles) < 0x1_0000_0000
      ==> ParseArchive(nested.content) == Some(innerFiles)
  {
    nested := CreateZipFile(nestedName, zipBuffer[..], zipSize);
    assert zipBuffer[..][..zipSize] == zipBuffer[..zipSize];
    if |innerFiles| < 0x1_0000
      && EntriesSize(innerFiles) + CentralDirSize(innerFiles) < 0x1_0000_0000
    {
      RoundTrip(innerFiles);
    }
  }

  /** The composition `go` performs: the inner archive is built in memory, wrapped by the
      binary createZipFile under `nestedName` and appended to the outer entries, and the
      outer archive is written. It yields nothing when the inner archive does not fit its
      buffer. */
  method CreateNestedZip(outerFiles: seq<ZipFile>, innerFiles: seq<ZipFile>, nestedName: seq<byte>)
    returns (file: Option<seq<byte>>)
    requires ValidEntries(outerFiles) && ValidEntries(innerFiles) && ShortNames(innerFiles)
    requires 0 in nestedName && |CString(nestedName)| < 0x1_0000
    ensures file.Some? <==> |ArchiveBytes(innerFiles, 0)| <= InnerCapacity
    ensures file.Some? ==>
      file.value == ArchiveBytes(outerFiles + [NestedEntry(nestedName, innerFiles)], 0)
  {
    var innerZip, innerZipSize := CreateInnerZipInMemory(innerFiles);
    if innerZip == null {
      return None;
    }
    assert innerZip[..innerZipSize] == ArchiveBytes(innerFiles, 0);
    var nested := WrapInnerZip(nestedName, innerZip, innerZipSize, innerFiles);
    var files := outerFiles + [nested];
    AppendValid(outerFiles, nested);
    var archive := CreateZip(files, false);
    return Some(archive);
  }

  lemma AppendValid(fs: seq<ZipFile>, f: ZipFile)
    requires ValidEntries(fs) && ValidEntry(f)
    ensures ValidEntries(fs + [f])
  {
    forall i | 0 <= i < |fs| + 1 ensures ValidEntry((fs + [f])[i]) {
      if i < |fs| {
        assert (fs + [f])[i] == fs[i];
      }
    }
  }

  /** Reading a nested archive: the outer archive gives back the outer entries followed
      by the nested one, and the nested entry's content reads back as the inner entries. */
  lemma NestedRoundTrip(outerFiles: seq<ZipFile>, innerFiles: seq<ZipFile>, nestedName: seq<byte>)
    requires ValidEntries(innerFiles) && |innerFiles| < 0x1_0000
    requires EntriesSize(innerFiles) + CentralDirSize(innerFiles) < 0x1_0000_0000
    requires var files := outerFiles + [NestedEntry(nestedName, innerFiles)];
      ValidEntries(files) && |files| < 0x1_0000
      && EntriesSize(files) + CentralDirSize(files) < 0x1_0000_0000
    ensures var files := outerFiles + [NestedEntry(nestedName, innerFiles)];
      && ParseArchive(ArchiveBytes(files, 0)) == Some(files)
      && ParseArchive(files[|files| - 1].content) == Some(innerFiles)
  {
    RoundTrip(outerFiles + [NestedEntry(nestedName, innerFiles)]);
    RoundTrip(innerFiles);
  }
}
