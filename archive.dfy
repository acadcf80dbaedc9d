/** The archive both writers produce, as a function of the entries and of the stream
    position where the archive starts: for every entry its local file header, name and
    content; then for every entry its central directory header and name; then the end of
    central directory record. Positions stored in the records are stream positions
    truncated to 32 bits, as the C code stores them in `int` fields. */
module Archive {
  import opened Common
  import opened Headers
  import opened DosTime
  import opened Entries
  import Crc32

  /** The bytes as crc32 reads them (each `char` cast to `unsigned char`). */
  function Octets(s: seq<byte>): (r: seq<bv8>)
    ensures |r| == |s|
  {
    seq(|s|, i requires 0 <= i < |s| => s[i] as bv8)
  }

  /** The CRC-32 of a content, as the 32-bit pattern stored in the headers. */
  function Checksum(content: seq<byte>): u32
  {
    Crc32.Crc(Octets(content)) as int
  }

  predicate ValidEntries(fs: seq<ZipFile>)
  {
    forall i :: 0 <= i < |fs| ==> ValidEntry(fs[i])
  }

  /** The local header the writers fill in for an entry: version 2.0 needed, no flags,
      method 0 (stored), the fixed DOS stamp, the CRC and length of the content as both
      sizes, the name length and no extra field. */
  function LocalHeaderFor(f: ZipFile): (h: LocalFileHeader)
    requires ValidEntry(f)
    ensures h.signature == LocalSignature && h.version == 20
    ensures h.flag == 0 && h.compression == 0 && h.extraFieldLength == 0
    ensures h.compressedSize == h.uncompressedSize == |f.content|
    ensures h.filenameLength == |f.filename| && h.crc32 == Checksum(f.content)
  {
    LocalFileHeader(LocalSignature, 20, 0, 0, GetDosTime(), GetDosDate(),
      Checksum(f.content), |f.content|, |f.content|, |f.filename|, 0)
  }

  /** The central header of an entry whose local header starts at stream position
      `offset`: it copies the stamp, CRC, sizes and name length of that local header. */
  function CentralHeaderFor(f: ZipFile, offset: nat): (h: CentralDirectoryHeader)
    requires ValidEntry(f)
    ensures var l := LocalHeaderFor(f);
      h.modTime == l.modTime && h.modDate == l.modDate && h.crc32 == l.crc32
      && h.compressedSize == l.compressedSize && h.uncompressedSize == l.uncompressedSize
      && h.filenameLength == l.filenameLength
    ensures h.signature == CentralSignature && h.versionMadeBy == 20 && h.versionNeeded == 20
    ensures h.flag == 0 && h.compression == 0 && h.extraFieldLength == 0
    ensures h.commentLength == 0 && h.diskNumberStart == 0 && h.internalFileAttr == 0
    ensures h.externalFileAttr == 0 && h.relativeOffset == Trunc32(offset)
  {
    var l := LocalHeaderFor(f);
    CentralDirectoryHeader(CentralSignature, 20, 20, 0, 0, l.modTime, l.modDate, l.crc32,
      l.compressedSize, l.uncompressedSize, l.filenameLength, 0, 0, 0, 0, 0, Trunc32(offset))
  }

  /** The concatenation of a sequence of records, built by appending one at a time. */
  function Concat(rs: seq<seq<byte>>): seq<byte>
  {
    if rs == [] then [] else Concat(rs[..|rs| - 1]) + rs[|rs| - 1]
  }

  /** What the first loop writes for one entry. */
  function LocalRecord(f: ZipFile): (s: seq<byte>)
    requires ValidEntry(f)
  {
    EncodeLocal(LocalHeaderFor(f)) + f.filename + f.content
  }

  function LocalRecords(fs: seq<ZipFile>): (rs: seq<seq<byte>>)
    requires ValidEntries(fs)
    ensures |rs| == |fs|
  {
    seq(|fs|, i requires 0 <= i < |fs| => LocalRecord(fs[i]))
  }

  /** The entry section: every entry's local record, in order. */
  function EntriesBytes(fs: seq<ZipFile>): seq<byte>
    requires ValidEntries(fs)
  {
    Concat(LocalRecords(fs))
  }

  /** Stream position of entry `i`'s local header in an archive starting at `base`. */
  function EntryOffset(fs: seq<ZipFile>, base: nat, i: nat): nat
    requires ValidEntries(fs) && i <= |fs|
  {
    base + EntriesSize(fs[..i])
  }

  /** The central headers the first loop keeps, one per entry, each pointing at the
      position of that entry's local header. */
  function CentralHeaders(fs: seq<ZipFile>, base: nat): (hs: seq<CentralDirectoryHeader>)
    requires ValidEntries(fs)
    ensures |hs| == |fs|
  {
    seq(|fs|, i requires 0 <= i < |fs| => CentralHeaderFor(fs[i], EntryOffset(fs, base, i)))
  }

  lemma CentralHeaderAt(fs: seq<ZipFile>, base: nat, i: nat, off: nat)
    requires ValidEntries(fs) && i < |fs| && off == EntryOffset(fs, base, i)
    ensures CentralHeaders(fs, base)[i] == CentralHeaderFor(fs[i], off)
  {
  }

  /** What the second loop writes for one entry. */
  function CentralRecord(f: ZipFile, offset: nat): seq<byte>
    requires ValidEntry(f)
  {
    EncodeCentral(CentralHeaderFor(f, offset)) + f.filename
  }

  function CentralRecords(fs: seq<ZipFile>, base: nat): (rs: seq<seq<byte>>)
    requires ValidEntries(fs)
    ensures |rs| == |fs|
  {
    seq(|fs|, i requires 0 <= i < |fs| => CentralRecord(fs[i], EntryOffset(fs, base, i)))
  }

  /** The central directory: every entry's central record, in order. */
  function CentralBytes(fs: seq<ZipFile>, base: nat): seq<byte>
    requires ValidEntries(fs)
  {
    Concat(CentralRecords(fs, base))
  }

  /** The size the writers add up for the central directory: 46 header bytes plus the
      name, for every entry. */
  function CentralDirSize(fs: seq<ZipFile>): nat
  {
    if fs == [] then 0 else CentralDirSize(fs[..|fs| - 1]) + CentralSize + |fs[|fs| - 1].filename|
  }

  /** The size of the entry section: 30 header bytes plus name plus content, for every
      entry. */
  function EntriesSize(fs: seq<ZipFile>): nat
  {
    if fs == [] then 0
    else
      var f := fs[|fs| - 1];
      EntriesSize(fs[..|fs| - 1]) + LocalSize + |f.filename| + |f.content|
  }

  /** The end record: one disk, both entry counts the number of entries, the summed
      directory size, the directory's position, and no comment. */
  function EocdFor(fs: seq<ZipFile>, base: nat): (e: EndOfCentralDirectory)
    requires ValidEntries(fs)
    ensures e.signature == EocdSignature && e.diskNumber == 0 && e.centralDirDisk == 0
    ensures e.numEntriesOnDisk == e.totalEntries == Trunc16(|fs|) && e.commentLength == 0
    ensures e.centralDirSize == Trunc32(CentralDirSize(fs))
    ensures e.centralDirOffset == Trunc32(base + EntriesSize(fs))
  {
    EndOfCentralDirectory(EocdSignature, 0, 0, Trunc16(|fs|), Trunc16(|fs|),
      Trunc32(CentralDirSize(fs)), Trunc32(base + EntriesSize(fs)), 0)
  }

  /** The whole archive for entries `fs` written from stream position `base`. */
  function ArchiveBytes(fs: seq<ZipFile>, base: nat): seq<byte>
    requires ValidEntries(fs)
  {
    EntriesBytes(fs) + CentralBytes(fs, base) + EncodeEocd(EocdFor(fs, base))
  }

  // ---------------------------------------------------------------------------------
  // Where the records sit in a stream: the facts a reader needs, one record at a time

  /** The local record of `f` is at `p` in `z`: header, then name, then content. */
  predicate LocalAt(z: seq<byte>, p: nat, f: ZipFile)
    requires ValidEntry(f)
  {
    var n := p + LocalSize;
    var c := n + |f.filename|;
    c + |f.content| <= |z| && z[p..n] == EncodeLocal(LocalHeaderFor(f))
    && z[n..c] == f.filename && z[c..c + |f.content|] == f.content
  }

  /** The central record of `f`, for a local header at `off`, is at `p` in `z`. */
  predicate CentralAt(z: seq<byte>, p: nat, f: ZipFile, off: nat)
    requires ValidEntry(f)
  {
    var n := p + CentralSize;
    n + |f.filename| <= |z| && z[p..n] == EncodeCentral(CentralHeaderFor(f, off))
    && z[n..n + |f.filename|] == f.filename
  }

  /** The end record `e` closes `z`. */
  predicate EocdAt(z: seq<byte>, e: EndOfCentralDirectory)
  {
    EocdSize <= |z| && z[|z| - EocdSize..] == EncodeEocd(e)
  }

  // ---------------------------------------------------------------------------------
  // Slices of concatenations

  lemma SliceSplit(z: seq<byte>, p: nat, m: nat, q: nat, r: seq<byte>, a: seq<byte>, b: seq<byte>)
    requires m == p + |a| && q == m + |b| && q <= |z| && z[p..q] == r && r == a + b
    ensures z[p..m] == a && z[m..q] == b
  {
    assert z[p..m] == z[p..q][..|a|];
    assert z[m..q] == z[p..q][|a|..];
  }

  lemma ConcatSnoc(rs: seq<seq<byte>>, r: seq<byte>)
    ensures Concat(rs + [r]) == Concat(rs) + r
  {
    assert (rs + [r])[..|rs|] == rs;
  }

  /** The concatenation splits at every record boundary. */
  lemma {:induction false} ConcatSplit(rs: seq<seq<byte>>, i: nat)
    requires i <= |rs|
    ensures Concat(rs) == Concat(rs[..i]) + Concat(rs[i..])
    decreases |rs|
  {
    if i < |rs| {
      var n := |rs| - 1;
      var init := rs[..n];
      assert init[..i] == rs[..i];
      assert rs[i..] == init[i..] + [rs[n]];
      ConcatSplit(init, i);
      ConcatSnoc(init[i..], rs[n]);
    } else {
      assert rs[..i] == rs;
      assert rs[i..] == [];
    }
  }

  /** Record `i` sits right after the records before it. */
  lemma ConcatAt(rs: seq<seq<byte>>, i: nat)
    requires i < |rs|
    ensures exists rest :: Concat(rs) == Concat(rs[..i]) + rs[i] + rest
  {
    ConcatSplit(rs, i);
    var tail := rs[i..];
    ConcatSplit(tail, 1);
    assert tail[..1] == [rs[i]];
    assert Concat([rs[i]]) == rs[i] by { ConcatSnoc([], rs[i]); }
    var rest := Concat(tail[1..]);
    assert Concat(rs) == Concat(rs[..i]) + rs[i] + rest;
  }

  /** In `head`, then the records, then `tail`, record `i` spans `p` to `q`. */
  lemma ConcatSlice(z: seq<byte>, head: seq<byte>, rs: seq<seq<byte>>, tail: seq<byte>, i: nat,
      p: nat, q: nat)
    requires i < |rs| && z == head + Concat(rs) + tail
    requires p == |head| + |Concat(rs[..i])| && q == p + |rs[i]|
    ensures q <= |z| && z[p..q] == rs[i]
  {
    ConcatAt(rs, i);
    var rest :| Concat(rs) == Concat(rs[..i]) + rs[i] + rest;
    assert z == (head + Concat(rs[..i])) + rs[i] + (rest + tail);
  }

  /** The same with the records first, then `mid`, then `tail`. */
  lemma ConcatSliceFront(z: seq<byte>, rs: seq<seq<byte>>, mid: seq<byte>, tail: seq<byte>,
      i: nat, p: nat, q: nat)
    requires i < |rs| && z == Concat(rs) + mid + tail
    requires p == |Concat(rs[..i])| && q == p + |rs[i]|
    ensures q <= |z| && z[p..q] == rs[i]
  {
    ConcatSlice(z, [], rs, mid + tail, i, p, q);
  }

  // ---------------------------------------------------------------------------------
  // The records of prefixes of the entries

  /** The records of a prefix of the entries are the prefix of the records. */
  lemma LocalRecordsPrefix(fs: seq<ZipFile>, i: nat)
    requires ValidEntries(fs) && i <= |fs|
    ensures LocalRecords(fs[..i]) == LocalRecords(fs)[..i]
  {
  }

  /** The records of a prefix of the entries are the prefix of the records; the offsets
      depend only on the entries before. */
  lemma CentralRecordsPrefix(fs: seq<ZipFile>, base: nat, i: nat)
    requires ValidEntries(fs) && i <= |fs|
    ensures CentralRecords(fs[..i], base) == CentralRecords(fs, base)[..i]
  {
    forall k | 0 <= k < i
      ensures CentralRecords(fs[..i], base)[k] == CentralRecords(fs, base)[k]
    {
      assert fs[..i][..k] == fs[..k];
    }
  }

  /** Each entry appends its local record to the entry section. */
  lemma EntriesBytesSnoc(fs: seq<ZipFile>, i: nat)
    requires ValidEntries(fs) && i < |fs|
    ensures EntriesBytes(fs[..i + 1]) == EntriesBytes(fs[..i]) + LocalRecord(fs[i])
  {
    var rs := LocalRecords(fs);
    LocalRecordsPrefix(fs, i);
    LocalRecordsPrefix(fs, i + 1);
    assert rs[..i + 1] == rs[..i] + [rs[i]];
    ConcatSnoc(rs[..i], rs[i]);
  }

  /** Each entry appends its central record to the directory. */
  lemma CentralBytesSnoc(fs: seq<ZipFile>, base: nat, i: nat)
    requires ValidEntries(fs) && i < |fs|
    ensures CentralBytes(fs[..i + 1], base)
      == CentralBytes(fs[..i], base) + CentralRecord(fs[i], EntryOffset(fs, base, i))
  {
    var rs := CentralRecords(fs, base);
    CentralRecordsPrefix(fs, base, i);
    CentralRecordsPrefix(fs, base, i + 1);
    assert rs[..i + 1] == rs[..i] + [rs[i]];
    ConcatSnoc(rs[..i], rs[i]);
  }

  lemma EntriesSizeSnoc(fs: seq<ZipFile>, i: nat)
    requires i < |fs|
    ensures EntriesSize(fs[..i + 1]) == EntriesSize(fs[..i]) + LocalSize + |fs[i].filename|
      + |fs[i].content|
  {
    assert fs[..i + 1][..i] == fs[..i];
  }

  lemma CentralDirSizeSnoc(fs: seq<ZipFile>, i: nat)
    requires i < |fs|
    ensures CentralDirSize(fs[..i + 1]) == CentralDirSize(fs[..i]) + CentralSize + |fs[i].filename|
  {
    assert fs[..i + 1][..i] == fs[..i];
  }

  /** Sizes of prefixes never exceed the size of the whole. */
  lemma {:induction false} PrefixSizes(fs: seq<ZipFile>, i: nat)
    requires i <= |fs|
    ensures EntriesSize(fs[..i]) <= EntriesSize(fs) && CentralDirSize(fs[..i]) <= CentralDirSize(fs)
    decreases |fs| - i
  {
    if i < |fs| {
      EntriesSizeSnoc(fs, i);
      CentralDirSizeSnoc(fs, i);
      PrefixSizes(fs, i + 1);
    } else {
      assert fs[..i] == fs;
    }
  }

  // ---------------------------------------------------------------------------------
  // Sizes

  /** The entry section is as long as the sum the headers imply. */
  lemma {:induction false} EntriesLength(fs: seq<ZipFile>)
    requires ValidEntries(fs)
    ensures |EntriesBytes(fs)| == EntriesSize(fs)
    decreases |fs|
  {
    if fs != [] {
      var n := |fs| - 1;
      assert fs[..n + 1] == fs;
      EntriesBytesSnoc(fs, n);
      EntriesLength(fs[..n]);
    }
  }

  /** The central directory is exactly as long as the `centralDirSize` the writers sum:
      46 bytes plus the name length per entry. */
  lemma {:induction false} CentralLength(fs: seq<ZipFile>, base: nat)
    requires ValidEntries(fs)
    ensures |CentralBytes(fs, base)| == CentralDirSize(fs)
    decreases |fs|
  {
    if fs != [] {
      var n := |fs| - 1;
      assert fs[..n + 1] == fs;
      CentralBytesSnoc(fs, base, n);
      CentralLength(fs[..n], base);
    }
  }

  /** The archive is the entry section, the directory and the 22-byte end record: with no
      wrap-around its length is centralDirOffset + centralDirSize + 22 measured from
      `base`. */
  lemma ArchiveLength(fs: seq<ZipFile>, base: nat)
    requires ValidEntries(fs)
    ensures |ArchiveBytes(fs, base)| == EntriesSize(fs) + CentralDirSize(fs) + EocdSize
    ensures base + |ArchiveBytes(fs, base)| < 0x1_0000_0000 ==>
      var e := EocdFor(fs, base);
      base + |ArchiveBytes(fs, base)| == e.centralDirOffset + e.centralDirSize + EocdSize
  {
    ArchiveSize(fs, base);
  }

  lemma ArchiveSize(fs: seq<ZipFile>, base: nat)
    requires ValidEntries(fs)
    ensures |ArchiveBytes(fs, base)| == EntriesSize(fs) + CentralDirSize(fs) + EocdSize
  {
    EntriesLength(fs);
    CentralLength(fs, base);
  }

  /** With no entries the archive is the end record alone, pointing at `base`. */
  lemma EmptyArchive(base: nat)
    requires base < 0x1_0000_0000
    ensures ArchiveBytes([], base)
      == EncodeEocd(EndOfCentralDirectory(EocdSignature, 0, 0, 0, 0, 0, base, 0))
  {
    assert EntriesBytes([]) == [] && CentralBytes([], base) == [];
  }

  // ---------------------------------------------------------------------------------
  // Where the records are

  /** Entry `i`'s local record starts where the offset stored in its central header
      points, measured from `base`. */
  lemma LocalAtArchive(fs: seq<ZipFile>, base: nat, i: nat, z: seq<byte>, p: nat)
    requires ValidEntries(fs) && i < |fs| && z == ArchiveBytes(fs, base)
    requires p == EntriesSize(fs[..i])
    ensures LocalAt(z, p, fs[i])
  {
    var rs := LocalRecords(fs);
    var r := rs[i];
    var q := p + |r|;
    LocalRecordsPrefix(fs, i);
    EntriesLength(fs[..i]);
    ConcatSliceFront(z, rs, CentralBytes(fs, base), EncodeEocd(EocdFor(fs, base)), i, p, q);
    LocalAtOf(z, p, q, fs[i], r);
  }

  lemma LocalAtOf(z: seq<byte>, p: nat, q: nat, f: ZipFile, r: seq<byte>)
    requires ValidEntry(f) && r == LocalRecord(f) && q == p + |r| && q <= |z| && z[p..q] == r
    ensures LocalAt(z, p, f)
  {
    var h := EncodeLocal(LocalHeaderFor(f));
    var n := p + LocalSize;
    var c := n + |f.filename|;
    SliceSplit(z, p, c, q, r, h + f.filename, f.content);
    SliceSplit(z, p, n, c, h + f.filename, h, f.filename);
  }

  /** Entry `i`'s central record starts `CentralDirSize(fs[..i])` bytes into the
      directory, which starts right after the entry section. */
  lemma CentralAtArchive(fs: seq<ZipFile>, base: nat, i: nat, z: seq<byte>, p: nat, off: nat)
    requires ValidEntries(fs) && i < |fs| && z == ArchiveBytes(fs, base)
    requires p == EntriesSize(fs) + CentralDirSize(fs[..i]) && off == EntryOffset(fs, base, i)
    ensures CentralAt(z, p, fs[i], off)
  {
    EntriesLength(fs);
    CentralAtIn(z, EntriesBytes(fs), CentralRecords(fs, base), EncodeEocd(EocdFor(fs, base)),
      fs, base, i, p, off);
  }

  lemma CentralAtIn(z: seq<byte>, head: seq<byte>, rs: seq<seq<byte>>, tail: seq<byte>,
      fs: seq<ZipFile>, base: nat, i: nat, p: nat, off: nat)
    requires ValidEntries(fs) && i < |fs| && rs == CentralRecords(fs, base)
      && z == head + Concat(rs) + tail
    requires p == |head| + CentralDirSize(fs[..i]) && off == EntryOffset(fs, base, i)
    ensures CentralAt(z, p, fs[i], off)
  {
    var r := rs[i];
    var q := p + |r|;
    CentralRecordsPrefix(fs, base, i);
    CentralLength(fs[..i], base);
    ConcatSlice(z, head, rs, tail, i, p, q);
    CentralAtOf(z, p, q, fs[i], off, r);
  }

  lemma CentralAtOf(z: seq<byte>, p: nat, q: nat, f: ZipFile, off: nat, r: seq<byte>)
    requires ValidEntry(f) && r == CentralRecord(f, off) && q == p + |r| && q <= |z| && z[p..q] == r
    ensures CentralAt(z, p, f, off)
  {
    SliceSplit(z, p, p + CentralSize, q, r, EncodeCentral(CentralHeaderFor(f, off)), f.filename);
  }

  /** Every entry's local record is where the entry section puts it. */
  predicate EntriesAt(z: seq<byte>, fs: seq<ZipFile>)
    requires ValidEntries(fs)
  {
    forall i {:trigger LocalAt(z, EntriesSize(fs[..i]), fs[i])} :: 0 <= i < |fs| ==>
      LocalAt(z, EntriesSize(fs[..i]), fs[i])
  }

  /** Every entry's central record is where the directory puts it, right after the entry
      section, and points at the entry's local header. */
  predicate DirectoryAt(z: seq<byte>, fs: seq<ZipFile>, base: nat)
    requires ValidEntries(fs)
  {
    forall i {:trigger CentralAt(z, CentralPosition(fs, i), fs[i], EntryOffset(fs, base, i))} ::
      0 <= i < |fs| ==> CentralAt(z, CentralPosition(fs, i), fs[i], EntryOffset(fs, base, i))
  }

  /** Where entry `i`'s central record starts, counted from the start of the archive. */
  function CentralPosition(fs: seq<ZipFile>, i: nat): nat
    requires i <= |fs|
  {
    EntriesSize(fs) + CentralDirSize(fs[..i])
  }

  lemma EntriesAtArchive(fs: seq<ZipFile>, base: nat)
    requires ValidEntries(fs)
    ensures EntriesAt(ArchiveBytes(fs, base), fs)
  {
    forall i | 0 <= i < |fs|
      ensures LocalAt(ArchiveBytes(fs, base), EntriesSize(fs[..i]), fs[i])
    {
      LocalAtArchive(fs, base, i, ArchiveBytes(fs, base), EntriesSize(fs[..i]));
    }
  }

  lemma DirectoryAtArchive(fs: seq<ZipFile>, base: nat)
    requires ValidEntries(fs)
    ensures DirectoryAt(ArchiveBytes(fs, base), fs, base)
  {
    forall i | 0 <= i < |fs|
      ensures CentralAt(ArchiveBytes(fs, base), CentralPosition(fs, i), fs[i],
                        EntryOffset(fs, base, i))
    {
      CentralAtArchive(fs, base, i, ArchiveBytes(fs, base),
        EntriesSize(fs) + CentralDirSize(fs[..i]), EntryOffset(fs, base, i));
    }
  }

  /** The end record closes the archive. */
  lemma EocdAtArchive(fs: seq<ZipFile>, base: nat, z: seq<byte>)
    requires ValidEntries(fs) && z == ArchiveBytes(fs, base)
    ensures EocdAt(z, EocdFor(fs, base))
  {
  }
}
