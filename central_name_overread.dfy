/** The central directory loop of nestedzipper.c's create_zip (the file writer that
    stores the outer archive) as it is written: after each central header it writes
    `zip_files[i].size` bytes starting at the entry's name, the length of the content
    rather than of the name. The header's own name length, the `centralDirSize` summed in
    the first loop and zipper.c's copy of the same loop all use the name's length, which is
    what `Writer.WriteCentral` writes. The functions below model the loop as written; the
    lemmas show what it breaks. */
module CentralNameOverread {
  import opened Common
  import opened Headers
  import opened LittleEndian
  import opened Entries
  import opened Archive
  import opened Reader

  /** The C string of a name as memory holds it: the name, its NUL terminator and
      whatever the heap keeps after it. */
  predicate HoldsName(memory: seq<byte>, f: ZipFile)
  {
    |f.filename| < |memory| && memory[..|f.filename|] == f.filename && memory[|f.filename|] == 0
  }

  /** What the loop as written emits for one entry: the central header, then `size` bytes
      read from the start of the name. `memory` is what can be read from the name's
      address, and must reach that far. */
  function CentralRecordAsWritten(f: ZipFile, off: nat, memory: seq<byte>): (r: seq<byte>)
    requires ValidEntry(f) && |f.content| <= |memory|
    ensures |r| == CentralSize + |f.content|
    ensures r[..CentralSize] == EncodeCentral(CentralHeaderFor(f, off))
  {
    EncodeCentral(CentralHeaderFor(f, off)) + memory[..|f.content|]
  }

  /** The archive create_zip writes for a single entry, as written. */
  function SingleArchiveAsWritten(f: ZipFile, memory: seq<byte>): seq<byte>
    requires ValidEntry(f) && |f.content| <= |memory|
  {
    EntriesBytes([f]) + CentralRecordAsWritten(f, 0, memory) + EncodeEocd(EocdFor([f], 0))
  }

  /** The record written is the intended one exactly when the content is as long as the
      name; otherwise it is cut short inside the name or runs past it, through the NUL
      terminator into whatever follows. */
  lemma AsWrittenMatchesOnlyForEqualLengths(f: ZipFile, off: nat, memory: seq<byte>)
    requires ValidEntry(f) && |f.content| <= |memory| && HoldsName(memory, f)
    ensures CentralRecordAsWritten(f, off, memory) == CentralRecord(f, off)
      <==> |f.content| == |f.filename|
    ensures |f.content| > |f.filename| ==>
      CentralRecordAsWritten(f, off, memory)[CentralSize + |f.filename|] == 0
  {
    var r := CentralRecordAsWritten(f, off, memory);
    if |f.content| == |f.filename| {
      assert memory[..|f.content|] == f.filename;
    } else {
      assert |r| != |CentralRecord(f, off)|;
    }
  }

  /** In the single-entry archive as written, the end record claims a directory of 46
      plus the name length bytes starting right after the entry, but the record itself
      starts 46 plus the content length bytes after that point. Unless the two lengths
      agree, the directory's offset plus its size misses the end record's position, and
      the reader rejects the archive. */
  lemma AsWrittenMisplacesEnd(f: ZipFile, memory: seq<byte>)
    requires ValidEntry(f) && |f.content| <= |memory|
    ensures var z := SingleArchiveAsWritten(f, memory);
      var e := EocdFor([f], 0);
      |z| >= EocdSize && DecodeEocd(z[|z| - EocdSize..]) == Some(e)
      && (e.centralDirOffset + e.centralDirSize == |z| - EocdSize <==> |f.content| == |f.filename|)
    ensures |f.content| != |f.filename| ==> ParseArchive(SingleArchiveAsWritten(f, memory)) == None
  {
    var z := SingleArchiveAsWritten(f, memory);
    var e := EocdFor([f], 0);
    EntriesLength([f]);
    assert [f][..0] == [];
    assert EntriesSize([f]) == LocalSize + |f.filename| + |f.content|;
    assert CentralDirSize([f]) == CentralSize + |f.filename|;
    assert z[|z| - EocdSize..] == EncodeEocd(e);
    EocdRoundTrip(e);
  }

  /** The first outer entry of nestedzipper.c's demo, "outer1.txt" holding "Outer File 1":
      the loop writes 12 name bytes where the name has 10, so the directory carries the
      name's NUL terminator and one byte from beyond its allocation, and the archive
      does not read back. */
  lemma OuterEntryDirectoryOverread(beyond: byte)
    ensures var f := ZipFile([0x6F, 0x75, 0x74, 0x65, 0x72, 0x31, 0x2E, 0x74, 0x78, 0x74],
                             [0x4F, 0x75, 0x74, 0x65, 0x72, 0x20, 0x46, 0x69, 0x6C, 0x65,
                              0x20, 0x31]);
      var memory := f.filename + [0, beyond];
      ValidEntry(f) && HoldsName(memory, f)
      && CentralRecordAsWritten(f, 0, memory) == CentralRecord(f, 0) + [0, beyond]
      && ParseArchive(SingleArchiveAsWritten(f, memory)) == None
  {
    var f := ZipFile([0x6F, 0x75, 0x74, 0x65, 0x72, 0x31, 0x2E, 0x74, 0x78, 0x74],
                     [0x4F, 0x75, 0x74, 0x65, 0x72, 0x20, 0x46, 0x69, 0x6C, 0x65,
                      0x20, 0x31]);
    var memory := f.filename + [0, beyond];
    assert memory[..|f.filename|] == f.filename;
    assert memory[..|f.content|] == memory;
    AsWrittenMisplacesEnd(f, memory);
  }
}
