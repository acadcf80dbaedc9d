/** The three fixed-size records of a ZIP archive and their byte encodings: the local file
    header (APPNOTE.TXT section 4.3.7), the central directory file header (section 4.3.12)
    and the end of central directory record (section 4.3.16). Each record is the packed C
    struct of zipper.c and nestedzipper.c, field for field and with no padding, every field
    stored least significant byte first; the file name that follows a header on disk is
    not part of the record. */
module Headers {
  import opened Common
  import opened LittleEndian

  const LocalSignature: u32 := 0x0403_4b50
  const CentralSignature: u32 := 0x0201_4b50
  const EocdSignature: u32 := 0x0605_4b50

  const LocalSize := 30
  const CentralSize := 46
  const EocdSize := 22

  datatype LocalFileHeader = LocalFileHeader(
    signature: u32,
    version: u16,
    flag: u16,
    compression: u16,
    modTime: u16,
    modDate: u16,
    crc32: u32,
    compressedSize: u32,
    uncompressedSize: u32,
    filenameLength: u16,
    extraFieldLength: u16)

  datatype CentralDirectoryHeader = CentralDirectoryHeader(
    signature: u32,
    versionMadeBy: u16,
    versionNeeded: u16,
    flag: u16,
    compression: u16,
    modTime: u16,
    modDate: u16,
    crc32: u32,
    compressedSize: u32,
    uncompressedSize: u32,
    filenameLength: u16,
    extraFieldLength: u16,
    commentLength: u16,
    diskNumberStart: u16,
    internalFileAttr: u16,
    externalFileAttr: u32,
    relativeOffset: u32)

  datatype EndOfCentralDirectory = EndOfCentralDirectory(
    signature: u32,
    diskNumber: u16,
    centralDirDisk: u16,
    numEntriesOnDisk: u16,
    totalEntries: u16,
    centralDirSize: u32,
    centralDirOffset: u32,
    commentLength: u16)

  /** The 30 bytes of a local file header: the fields in declaration order, each in
      little-endian order. */
  function EncodeLocal(h: LocalFileHeader): (s: seq<byte>)
    ensures |s| == LocalSize
  {
    Le32(h.signature) + Le16(h.version) + Le16(h.flag) + Le16(h.compression)
    + Le16(h.modTime) + Le16(h.modDate) + Le32(h.crc32) + Le32(h.compressedSize)
    + Le32(h.uncompressedSize) + Le16(h.filenameLength) + Le16(h.extraFieldLength)
  }

  /** The 46 bytes of a central directory header. */
  function EncodeCentral(h: CentralDirectoryHeader): (s: seq<byte>)
    ensures |s| == CentralSize
  {
    Le32(h.signature) + Le16(h.versionMadeBy) + Le16(h.versionNeeded) + Le16(h.flag)
    + Le16(h.compression) + Le16(h.modTime) + Le16(h.modDate) + Le32(h.crc32)
    + Le32(h.compressedSize) + Le32(h.uncompressedSize) + Le16(h.filenameLength)
    + Le16(h.extraFieldLength) + Le16(h.commentLength) + Le16(h.diskNumberStart)
    + Le16(h.internalFileAttr) + Le32(h.externalFileAttr) + Le32(h.relativeOffset)
  }

  /** The 22 bytes of the end of central directory record. */
  function EncodeEocd(e: EndOfCentralDirectory): (s: seq<byte>)
    ensures |s| == EocdSize
  {
    Le32(e.signature) + Le16(e.diskNumber) + Le16(e.centralDirDisk)
    + Le16(e.numEntriesOnDisk) + Le16(e.totalEntries) + Le32(e.centralDirSize)
    + Le32(e.centralDirOffset) + Le16(e.commentLength)
  }

  /** Reads a local file header back; fails unless `s` is 30 bytes starting with the
      local header signature. */
  function DecodeLocal(s: seq<byte>): (r: Option<LocalFileHeader>)
    ensures r.Some? ==> |s| == LocalSize && r.value.signature == LocalSignature
  {
    if |s| != LocalSize || Read32(s, 0) != LocalSignature then None
    else
      Some(LocalFileHeader(Read32(s, 0), Read16(s, 4), Read16(s, 6), Read16(s, 8),
        Read16(s, 10), Read16(s, 12), Read32(s, 14), Read32(s, 18), Read32(s, 22),
        Read16(s, 26), Read16(s, 28)))
  }

  /** Reads a central directory header back; fails unless `s` is 46 bytes starting with
      the central header signature. */
  function DecodeCentral(s: seq<byte>): (r: Option<CentralDirectoryHeader>)
    ensures r.Some? ==> |s| == CentralSize && r.value.signature == CentralSignature
  {
    if |s| != CentralSize || Read32(s, 0) != CentralSignature then None
    else
      Some(CentralDirectoryHeader(Read32(s, 0), Read16(s, 4), Read16(s, 6), Read16(s, 8),
        Read16(s, 10), Read16(s, 12), Read16(s, 14), Read32(s, 16), Read32(s, 20),
        Read32(s, 24), Read16(s, 28), Read16(s, 30), Read16(s, 32), Read16(s, 34),
        Read16(s, 36), Read32(s, 38), Read32(s, 42)))
  }

  /** Reads an end of central directory record back; fails unless `s` is 22 bytes
      starting with the end record signature. */
  function DecodeEocd(s: seq<byte>): (r: Option<EndOfCentralDirectory>)
    ensures r.Some? ==> |s| == EocdSize && r.value.signature == EocdSignature
  {
    if |s| != EocdSize || Read32(s, 0) != EocdSignature then None
    else
      Some(EndOfCentralDirectory(Read32(s, 0), Read16(s, 4), Read16(s, 6), Read16(s, 8),
        Read16(s, 10), Read32(s, 12), Read32(s, 16), Read16(s, 20)))
  }

  /** Decoding undoes encoding for every local header carrying its signature. */
  lemma LocalRoundTrip(h: LocalFileHeader)
    requires h.signature == LocalSignature
    ensures DecodeLocal(EncodeLocal(h)) == Some(h)
  {
    LocalFields1(h);
    LocalFields2(h);
    LocalFields3(h);
  }

  lemma LocalFields1(h: LocalFileHeader)
    ensures var s := EncodeLocal(h);
      Read32(s, 0) == h.signature && Read16(s, 4) == h.version && Read16(s, 6) == h.flag
      && Read16(s, 8) == h.compression
  {
    var s := EncodeLocal(h);
    Read32Of(s, 0, h.signature);
    Read16Of(s, 4, h.version);
    Read16Of(s, 6, h.flag);
    Read16Of(s, 8, h.compression);
  }

  lemma LocalFields2(h: LocalFileHeader)
    ensures var s := EncodeLocal(h);
      Read16(s, 10) == h.modTime && Read16(s, 12) == h.modDate && Read32(s, 14) == h.crc32
      && Read32(s, 18) == h.compressedSize
  {
    var s := EncodeLocal(h);
    Read16Of(s, 10, h.modTime);
    Read16Of(s, 12, h.modDate);
    Read32Of(s, 14, h.crc32);
    Read32Of(s, 18, h.compressedSize);
  }

  lemma LocalFields3(h: LocalFileHeader)
    ensures var s := EncodeLocal(h);
      Read32(s, 22) == h.uncompressedSize && Read16(s, 26) == h.filenameLength
      && Read16(s, 28) == h.extraFieldLength
  {
    var s := EncodeLocal(h);
    Read32Of(s, 22, h.uncompressedSize);
    Read16Of(s, 26, h.filenameLength);
    Read16Of(s, 28, h.extraFieldLength);
  }

  /** Decoding undoes encoding for every central header carrying its signature. */
  lemma CentralRoundTrip(h: CentralDirectoryHeader)
    requires h.signature == CentralSignature
    ensures DecodeCentral(EncodeCentral(h)) == Some(h)
  {
    CentralFields1(h);
    CentralFields2(h);
    CentralFields3(h);
    CentralFields4(h);
    CentralFields5(h);
  }

  lemma CentralFields1(h: CentralDirectoryHeader)
    ensures var s := EncodeCentral(h);
      Read32(s, 0) == h.signature && Read16(s, 4) == h.versionMadeBy
      && Read16(s, 6) == h.versionNeeded && Read16(s, 8) == h.flag
  {
    CentralSignatureField(h);
    var s := EncodeCentral(h);
    Read16Of(s, 4, h.versionMadeBy);
    Read16Of(s, 6, h.versionNeeded);
    Read16Of(s, 8, h.flag);
  }

  lemma CentralSignatureField(h: CentralDirectoryHeader)
    ensures Read32(EncodeCentral(h), 0) == h.signature
  {
    Read32Of(EncodeCentral(h), 0, h.signature);
  }

  lemma CentralFields2(h: CentralDirectoryHeader)
    ensures var s := EncodeCentral(h);
      Read16(s, 10) == h.compression && Read16(s, 12) == h.modTime
      && Read16(s, 14) == h.modDate && Read32(s, 16) == h.crc32
  {
    var s := EncodeCentral(h);
    Read16Of(s, 10, h.compression);
    Read16Of(s, 12, h.modTime);
    Read16Of(s, 14, h.modDate);
    Read32Of(s, 16, h.crc32);
  }

  lemma CentralFields3(h: CentralDirectoryHeader)
    ensures var s := EncodeCentral(h);
      Read32(s, 20) == h.compressedSize && Read32(s, 24) == h.uncompressedSize
      && Read16(s, 28) == h.filenameLength
  {
    var s := EncodeCentral(h);
    Read32Of(s, 20, h.compressedSize);
    Read32Of(s, 24, h.uncompressedSize);
    Read16Of(s, 28, h.filenameLength);
  }

  lemma CentralFields4(h: CentralDirectoryHeader)
    ensures var s := EncodeCentral(h);
      Read16(s, 30) == h.extraFieldLength && Read16(s, 32) == h.commentLength
      && Read16(s, 34) == h.diskNumberStart
  {
    var s := EncodeCentral(h);
    Read16Of(s, 30, h.extraFieldLength);
    Read16Of(s, 32, h.commentLength);
    Read16Of(s, 34, h.diskNumberStart);
  }

  lemma CentralFields5(h: CentralDirectoryHeader)
    ensures var s := EncodeCentral(h);
      Read16(s, 36) == h.internalFileAttr && Read32(s, 38) == h.externalFileAttr
      && Read32(s, 42) == h.relativeOffset
  {
    var s := EncodeCentral(h);
    Read16Of(s, 36, h.internalFileAttr);
    Read32Of(s, 38, h.externalFileAttr);
    Read32Of(s, 42, h.relativeOffset);
  }

  /** Decoding undoes encoding for every end record carrying its signature. */
  lemma EocdRoundTrip(e: EndOfCentralDirectory)
    requires e.signature == EocdSignature
    ensures DecodeEocd(EncodeEocd(e)) == Some(e)
  {
    EocdFields1(e);
    EocdFields2(e);
  }

  lemma EocdFields1(e: EndOfCentralDirectory)
    ensures var s := EncodeEocd(e);
      Read32(s, 0) == e.signature && Read16(s, 4) == e.diskNumber
      && Read16(s, 6) == e.centralDirDisk && Read16(s, 8) == e.numEntriesOnDisk
  {
    var s := EncodeEocd(e);
    Read32Of(s, 0, e.signature);
    Read16Of(s, 4, e.diskNumber);
    Read16Of(s, 6, e.centralDirDisk);
    Read16Of(s, 8, e.numEntriesOnDisk);
  }

  lemma EocdFields2(e: EndOfCentralDirectory)
    ensures var s := EncodeEocd(e);
      Read16(s, 10) == e.totalEntries && Read32(s, 12) == e.centralDirSize
      && Read32(s, 16) == e.centralDirOffset && Read16(s, 20) == e.commentLength
  {
    var s := EncodeEocd(e);
    Read16Of(s, 10, e.totalEntries);
    Read32Of(s, 12, e.centralDirSize);
    Read32Of(s, 16, e.centralDirOffset);
    Read16Of(s, 20, e.commentLength);
  }
}
