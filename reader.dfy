/** A reader for the archives the writers produce, in the two passes of the usual ZIP
    reader: find the end of central directory record in the last 22 bytes, read the
    central directory it points to, then follow every central header to its local header
    and stored data. It accepts only what a store-only writer can emit (method 0, equal
    sizes, matching names and CRC-32), and it is the inverse against which the archive
    layout is checked: reading back the archive of any valid entry list gives the
    entries. */
module Reader {
  import opened Common
  import opened Headers
  import opened Entries
  import opened Archive

  /** A central directory entry: its header and the name that follows it. */
  datatype CentralEntry = CentralEntry(header: CentralDirectoryHeader, name: seq<byte>)

  /** A central entry read from the directory, and where the next one starts. */
  datatype Parsed = Parsed(entry: CentralEntry, next: nat)

  /** The central entry at `pos`. */
  function ParseCentral(z: seq<byte>, pos: nat): (r: Option<Parsed>)
    ensures r.Some? ==> |r.value.entry.name| == r.value.entry.header.filenameLength
    ensures r.Some? ==> pos + CentralSize + |r.value.entry.name| <= r.value.next
  {
    if pos + CentralSize > |z| then None
    else
      match DecodeCentral(z[pos..pos + CentralSize])
      case None => None
      case Some(h) =>
        var n := pos + CentralSize;
        var e := n + h.filenameLength;
        if e > |z| then None
        else Some(Parsed(CentralEntry(h, z[n..e]), e + h.extraFieldLength + h.commentLength))
  }

  /** `count` consecutive central entries starting at `pos`. */
  function ParseDirectory(z: seq<byte>, pos: nat, count: nat): (r: Option<seq<CentralEntry>>)
    ensures r.Some? ==> |r.value| == count
    decreases count
  {
    if count == 0 then Some([])
    else
      var first := ParseCentral(z, pos);
      if first.None? then None
      else
        var rest := ParseDirectory(z, first.value.next, count - 1);
        if rest.None? then None else Some([first.value.entry] + rest.value)
  }

  /** The local header `l` and the central header `h` describe the same stored entry
      named `name`. */
  predicate Agrees(l: LocalFileHeader, h: CentralDirectoryHeader, name: seq<byte>)
  {
    l.compression == 0 && h.compression == 0 && l.filenameLength == |name|
    && l.compressedSize == l.uncompressedSize == h.compressedSize == h.uncompressedSize
    && l.crc32 == h.crc32
  }

  /** The content of the entry whose central header is `h` and whose name is `name`,
      read at the local header `h` points to. */
  function ReadLocal(z: seq<byte>, h: CentralDirectoryHeader,
      name: seq<byte>): (r: Option<seq<byte>>)
    ensures r.Some? ==> |r.value| == h.uncompressedSize && Checksum(r.value) == h.crc32
  {
    var p := h.relativeOffset;
    if p + LocalSize > |z| then None
    else
      match DecodeLocal(z[p..p + LocalSize])
      case None => None
      case Some(l) => ReadData(z, p + LocalSize, l, h, name)
  }

  /** The name and data that follow the local header `l`, whose end is at `n`; fails
      unless the headers agree, the name is the one in the directory and the data's
      CRC-32 is the recorded one. */
  function ReadData(z: seq<byte>, n: nat, l: LocalFileHeader, h: CentralDirectoryHeader,
      name: seq<byte>): (r: Option<seq<byte>>)
    ensures r.Some? ==> |r.value| == h.uncompressedSize && Checksum(r.value) == h.crc32
  {
    var d := n + l.filenameLength + l.extraFieldLength;
    if !Agrees(l, h, name) || d + l.compressedSize > |z| || z[n..n + |name|] != name then None
    else
      var content := z[d..d + l.compressedSize];
      if Checksum(content) != h.crc32 then None else Some(content)
  }

  /** The entries that the central entries `ds` describe, each read at its local header. */
  function ReadEntries(z: seq<byte>, ds: seq<CentralEntry>): (r: Option<seq<ZipFile>>)
    ensures r.Some? ==> |r.value| == |ds|
    ensures r.Some? ==> forall i :: 0 <= i < |ds| ==> r.value[i].filename == ds[i].name
  {
    if ds == [] then Some([])
    else
      var content := ReadLocal(z, ds[0].header, ds[0].name);
      if content.None? then None
      else
        var rest := ReadEntries(z, ds[1..]);
        if rest.None? then None else Some([ZipFile(ds[0].name, content.value)] + rest.value)
  }

  /** The entries of the archive `z`: its last 22 bytes must be an end record of a
      single-disk archive whose directory ends exactly where the record starts. */
  function ParseArchive(z: seq<byte>): (r: Option<seq<ZipFile>>)
    ensures r.Some? ==> |z| >= EocdSize && DecodeEocd(z[|z| - EocdSize..]).Some?
    ensures r.Some? ==> |r.value| == DecodeEocd(z[|z| - EocdSize..]).value.totalEntries
  {
    if |z| < EocdSize then None
    else
      match DecodeEocd(z[|z| - EocdSize..])
      case None => None
      case Some(e) =>
        if e.centralDirOffset + e.centralDirSize != |z| - EocdSize
          || e.numEntriesOnDisk != e.totalEntries || e.diskNumber != 0 || e.centralDirDisk != 0
        then None
        else
          var ds := ParseDirectory(z, e.centralDirOffset, e.totalEntries);
          if ds.None? then None else ReadEntries(z, ds.value)
  }

  // ---------------------------------------------------------------------------------
  // Reading back what the writers wrote

  /** The central entries the writers emit for `fs`, written from position 0. */
  function DirectoryOf(fs: seq<ZipFile>): (ds: seq<CentralEntry>)
    requires ValidEntries(fs)
    ensures |ds| == |fs|
  {
    seq(|fs|, i requires 0 <= i < |fs| =>
      CentralEntry(CentralHeaderFor(fs[i], EntryOffset(fs, 0, i)), fs[i].filename))
  }

  /** A central record in place reads back as its header and name, and the next central
      header starts right after the name. */
  lemma ParseCentralOf(z: seq<byte>, p: nat, f: ZipFile, off: nat, d: CentralEntry, next: nat)
    requires ValidEntry(f) && CentralAt(z, p, f, off)
    requires d == CentralEntry(CentralHeaderFor(f, off), f.filename)
    requires next == p + CentralSize + |f.filename|
    ensures ParseCentral(z, p) == Some(Parsed(d, next))
  {
    var h := d.header;
    var n := p + CentralSize;
    CentralDecodes(z, p, n, h);
    ParseCentralStep(z, p, n, h, d, next);
  }

  lemma CentralDecodes(z: seq<byte>, p: nat, n: nat, h: CentralDirectoryHeader)
    requires n == p + CentralSize <= |z| && z[p..n] == EncodeCentral(h)
    requires h.signature == CentralSignature
    ensures DecodeCentral(z[p..n]) == Some(h)
  {
    CentralRoundTrip(h);
  }

  lemma ParseCentralStep(z: seq<byte>, p: nat, n: nat, h: CentralDirectoryHeader,
      d: CentralEntry, next: nat)
    requires n == p + CentralSize <= |z| && DecodeCentral(z[p..n]) == Some(h)
    requires h.extraFieldLength == 0 && h.commentLength == 0 && next == n + h.filenameLength
    requires next <= |z| && d == CentralEntry(h, z[n..next])
    ensures ParseCentral(z, p) == Some(Parsed(d, next))
  {
  }

  /** The directory of an archive written from position 0 reads back, from entry `i`
      on, as the remaining central entries. */
  lemma {:induction false} ParseDirectoryFrom(fs: seq<ZipFile>, z: seq<byte>,
      ds: seq<CentralEntry>, i: nat, p: nat)
    requires ValidEntries(fs) && i <= |fs| && z == ArchiveBytes(fs, 0) && ds == DirectoryOf(fs)
    requires p == EntriesSize(fs) + CentralDirSize(fs[..i])
    ensures ParseDirectory(z, p, |fs| - i) == Some(ds[i..])
    decreases |fs| - i
  {
    if i < |fs| {
      var f := fs[i];
      var off := EntryOffset(fs, 0, i);
      var next := p + CentralSize + |f.filename|;
      var d := ds[i];
      var rest := ds[i + 1..];
      CentralAtArchive(fs, 0, i, z, p, off);
      ParseCentralOf(z, p, f, off, d, next);
      CentralDirSizeSnoc(fs, i);
      ParseDirectoryFrom(fs, z, ds, i + 1, next);
      SuffixCons(ds, i);
      ParseDirectoryStep(z, p, |fs| - i, |fs| - (i + 1), d, next, rest, ds[i..]);
    } else {
      assert ds[i..] == [];
    }
  }

  lemma SuffixCons<T>(s: seq<T>, i: nat)
    requires i < |s|
    ensures s[i..] == [s[i]] + s[i + 1..]
  {
  }

  lemma ParseDirectoryStep(z: seq<byte>, p: nat, count: nat, m: nat, d: CentralEntry, next: nat,
      rest: seq<CentralEntry>, all: seq<CentralEntry>)
    requires count == m + 1 && ParseCentral(z, p) == Some(Parsed(d, next))
    requires ParseDirectory(z, next, m) == Some(rest) && all == [d] + rest
    ensures ParseDirectory(z, p, count) == Some(all)
  {
  }

  /** A local record in place reads back as its content. */
  lemma ReadLocalOf(z: seq<byte>, f: ZipFile, off: nat, h: CentralDirectoryHeader)
    requires ValidEntry(f) && off < 0x1_0000_0000 && LocalAt(z, off, f)
    requires h == CentralHeaderFor(f, off)
    ensures ReadLocal(z, h, f.filename) == Some(f.content)
  {
    var l := LocalHeaderFor(f);
    var n := off + LocalSize;
    LocalDecodes(z, off, n, l);
    ReadDataOf(z, n, l, h, f);
  }

  lemma LocalDecodes(z: seq<byte>, p: nat, n: nat, l: LocalFileHeader)
    requires n == p + LocalSize <= |z| && z[p..n] == EncodeLocal(l)
    requires l.signature == LocalSignature
    ensures DecodeLocal(z[p..n]) == Some(l)
  {
    LocalRoundTrip(l);
  }

  lemma ReadDataOf(z: seq<byte>, n: nat, l: LocalFileHeader, h: CentralDirectoryHeader, f: ZipFile)
    requires ValidEntry(f) && l == LocalHeaderFor(f) && Agrees(l, h, f.filename)
    requires n + |f.filename| + |f.content| <= |z| && z[n..n + |f.filename|] == f.filename
    requires z[n + |f.filename|..n + |f.filename| + |f.content|] == f.content
    ensures ReadData(z, n, l, h, f.filename) == Some(f.content)
  {
  }

  /** The central entries of an archive written from position 0 read back, from entry
      `i` on, as the remaining entries. */
  lemma {:induction false} ReadEntriesFrom(fs: seq<ZipFile>, z: seq<byte>,
      ds: seq<CentralEntry>, i: nat)
    requires ValidEntries(fs) && i <= |fs| && z == ArchiveBytes(fs, 0) && ds == DirectoryOf(fs)
    requires EntriesSize(fs) < 0x1_0000_0000
    ensures ReadEntries(z, ds[i..]) == Some(fs[i..])
    decreases |fs| - i
  {
    if i < |fs| {
      var f := fs[i];
      var off := EntryOffset(fs, 0, i);
      var d := ds[i];
      PrefixSizes(fs, i);
      LocalAtArchive(fs, 0, i, z, off);
      ReadLocalOf(z, f, off, d.header);
      ReadEntriesFrom(fs, z, ds, i + 1);
      SuffixCons(ds, i);
      SuffixCons(fs, i);
      ReadEntriesStep(z, ds[i..], d, ds[i + 1..], f, fs[i + 1..], fs[i..]);
    } else {
      assert ds[i..] == [] && fs[i..] == [];
    }
  }

  lemma ReadEntriesStep(z: seq<byte>, all: seq<CentralEntry>, d: CentralEntry,
      rest: seq<CentralEntry>, f: ZipFile, files: seq<ZipFile>, result: seq<ZipFile>)
    requires all == [d] + rest && d.name == f.filename
    requires ReadLocal(z, d.header, d.name) == Some(f.content)
    requires ReadEntries(z, rest) == Some(files) && result == [f] + files
    ensures ReadEntries(z, all) == Some(result)
  {
    assert all[1..] == rest;
  }

  /** Round trip: reading the archive of any valid list of at most 65535 entries, whose
      positions fit the 32-bit fields, gives back exactly those entries, in order. */
  lemma RoundTrip(fs: seq<ZipFile>)
    requires ValidEntries(fs) && |fs| < 0x1_0000
    requires EntriesSize(fs) + CentralDirSize(fs) < 0x1_0000_0000
    ensures ParseArchive(ArchiveBytes(fs, 0)) == Some(fs)
  {
    var z := ArchiveBytes(fs, 0);
    var e := EocdFor(fs, 0);
    var ds := DirectoryOf(fs);
    var start := EntriesSize(fs);
    ArchiveLength(fs, 0);
    EocdAtArchive(fs, 0, z);
    EocdDecodes(z, e);
    assert fs[..0] == [];
    assert fs[0..] == fs && ds[0..] == ds;
    ParseDirectoryFrom(fs, z, ds, 0, start);
    ReadEntriesFrom(fs, z, ds, 0);
    ParseArchiveStep(z, e, ds, fs);
  }

  lemma EocdDecodes(z: seq<byte>, e: EndOfCentralDirectory)
    requires EocdAt(z, e) && e.signature == EocdSignature
    ensures DecodeEocd(z[|z| - EocdSize..]) == Some(e)
  {
    EocdRoundTrip(e);
  }

  lemma ParseArchiveStep(z: seq<byte>, e: EndOfCentralDirectory, ds: seq<CentralEntry>,
      fs: seq<ZipFile>)
    requires |z| >= EocdSize && DecodeEocd(z[|z| - EocdSize..]) == Some(e)
    requires e.centralDirOffset + e.centralDirSize == |z| - EocdSize
    requires e.numEntriesOnDisk == e.totalEntries && e.diskNumber == 0 && e.centralDirDisk == 0
    requires ParseDirectory(z, e.centralDirOffset, e.totalEntries) == Some(ds)
    requires ReadEntries(z, ds) == Some(fs)
    ensures ParseArchive(z) == Some(fs)
  {
  }
}
