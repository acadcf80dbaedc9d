# Store-only ZIP writer, modelled in Dafny

This project models the ZIP archive writer of the BOF_Files repository. The writer exists
in two near-identical copies, `Zipper/zipper.c` and `NestedZipper/nestedzipper.c`. It
builds a ZIP archive without compression. The layout follows the PKWARE APPNOTE:

- one local file header of 30 bytes per entry, followed by the name and the content;
- one central directory header of 46 bytes per entry, followed by the name;
- an end of central directory record of 22 bytes.

Every header carries a fixed MS-DOS stamp (12:00:00, 28 September 2024) and the reflected
CRC-32 of the content (polynomial 0xEDB88320).

Modules, one file each:

- `Common`: byte, 16-bit and 32-bit value types, and `Trunc16`/`Trunc32`. These model the
  silent truncation when a `size_t` or `long` is stored in a `short` or `int` field.
- `LittleEndian`: little-endian encoders and decoders for 16-bit and 32-bit fields.
- `Crc32`: `crc32` as a method with the original nested loops. It is proved equal to a
  left fold of a per-byte step. The fold gives the check value 0xCBF43926 for "123456789".
- `DosTime`: the DOS time and date encoding and the two constant stamps.
- `Headers`: the three packed records as datatypes with every field, their explicit
  little-endian encoders, and decoders proved to be their inverses.
- `Entries`: the `ZipFile` record, `MyStrLen`, `MyStrcpy`, and the two `createZipFile`
  functions (text and binary).
- `Archive`: the archive as a function of the entry list and the starting stream position.
  It is made of the entry section, the central directory and the end record, with offsets,
  sizes and lengths.
- `Sinks`: one class for both destinations:
  - the file, which accepts every write, since `WriteFile` results are ignored;
  - `memory_write`'s caller buffer with its cursor, which refuses a write that does not fit.
- `Writer`: `create_zip` and `create_zip_to_memory` as one imperative writer over a sink.
  It keeps the two loops, the kept central-header array and the running `centralDirSize`
  and `centralDirStart`. Each method is proved to emit exactly the bytes of
  `Archive.ArchiveBytes`, or a prefix of them when the buffer runs out.
- `Reader`: an independent ZIP reader, written from the format. It is the partner that
  shows the writer's output is a readable archive holding exactly the entries given.
- `Nested`: `create_inner_zip_in_memory` and the composition that stores an inner archive
  as an entry of an outer one.
- `CentralNameOverread`: the central directory loop of nestedzipper.c's `create_zip` as written (see
  below).

The file version of `create_zip` and the memory version share one algorithm. They differ
in three ways:

- the sink;
- zipper.c measures each content with `MyStrLen`, so its contents are text. The writer's
  `textContent` flag selects this.
- line 190 of nestedzipper.c, modelled in `CentralNameOverread`.

Where nestedzipper.c's `create_zip` is used (the outer archive), the model writes the name
length in the central directory, as zipper.c:197 and nestedzipper.c:356 do.

## Model

| member | source | states |
|---|---|---|
| Crc32.FeedByte | Zipper/zipper.c:98-106 | XOR of the byte into the register followed by the eight conditional shift rounds is exactly one step of the reference fold (`ByteStep`). |
| Crc32.Compute | Zipper/zipper.c:94-111 | The loop over the data returns the complement of the left fold of the per-byte step from 0xFFFFFFFF, the reflected CRC-32 (`Crc`). |
| Crc32.CrcOfEmpty | Zipper/zipper.c:95-110 | The CRC of no bytes is 0, the complement of the initial register. |
| Crc32.UpdateAppend | Zipper/zipper.c:97-106 | The register update over a concatenation is the update over the first part continued over the second. |
| Crc32.CheckValue | Zipper/zipper.c:94-111 | The CRC-32 of the ASCII bytes "123456789" is 0xCBF43926. |
| DosTime.TimeRoundTrip | Zipper/zipper.c:83-85 | Decoding the DOS time packing (hours << 11, minutes << 5, seconds / 2) gives back any valid time with even seconds. |
| DosTime.DateRoundTrip | Zipper/zipper.c:88-90 | Decoding the DOS date packing ((year - 1980) << 9, month << 5, day) gives back any valid date from 1980 to 2107. |
| DosTime.GetDosTime | Zipper/zipper.c:83-85 | The time stamp is 0x6000. |
| DosTime.GetDosDate | Zipper/zipper.c:88-90 | The date stamp is 0x593C. |
| DosTime.FixedStamp | Zipper/zipper.c:83-90 | The stamps are the encodings of 12:00:00 and 2024-09-28, they decode to those values, and both are below 2^15, so returning them as `short` loses nothing. |
| LittleEndian.Le16RoundTrip | Zipper/zipper.c:23-80 | Reading back the two little-endian bytes of a 16-bit field gives the field. |
| LittleEndian.Le32RoundTrip | Zipper/zipper.c:23-80 | Reading back the four little-endian bytes of a 32-bit field gives the field. |
| LittleEndian.Le32Injective | Zipper/zipper.c:23-80 | Distinct 32-bit field values have distinct encodings. |
| Headers.EncodeLocal | Zipper/zipper.c:30-42 | The packed local file header is 30 bytes long. |
| Headers.EncodeCentral | Zipper/zipper.c:46-64 | The packed central directory header is 46 bytes long. |
| Headers.EncodeEocd | Zipper/zipper.c:68-77 | The packed end of central directory record is 22 bytes long. |
| Headers.LocalRoundTrip | Zipper/zipper.c:30-42 | Decoding an encoded local header gives back every field. |
| Headers.CentralRoundTrip | Zipper/zipper.c:46-64 | Decoding an encoded central header gives back every field. |
| Headers.EocdRoundTrip | Zipper/zipper.c:68-77 | Decoding an encoded end record gives back every field. |
| Archive.LocalHeaderFor | Zipper/zipper.c:145-156 | The local header has the local signature and version 20. Flag, method and extra length are 0. Both sizes equal the content length, the CRC is the content's CRC-32, and the name length is the name's length. |
| Archive.CentralHeaderFor | Zipper/zipper.c:167-184 | The central header copies stamp, CRC, both sizes and name length from the same entry's local header. Both versions are 20, every other field is 0, and the relative offset is the position given, cut to 32 bits. |
| Archive.EocdFor | Zipper/zipper.c:201-209 | The end record says disk 0 for both disk fields, and both entry counts are the number of entries cut to 16 bits. The directory size is the sum of 46 plus the name length, the directory offset is the position after the last entry's content, and there is no comment. |
| Archive.EntriesLength | Zipper/zipper.c:139-164 | The entry section is as long as the sum over entries of 30 plus name length plus content length. |
| Archive.CentralLength | Zipper/zipper.c:188-198 | The central directory written is exactly `centralDirSize` bytes: 46 plus the name length per entry. |
| Archive.ArchiveLength | Zipper/zipper.c:188-212 | The archive is entries plus directory plus 22 bytes long. Without 32-bit wrap-around, its end is the recorded directory offset plus the directory size plus 22. |
| Archive.EmptyArchive | NestedZipper/nestedzipper.c:282-373 | With no entries the archive is the 22-byte end record alone, with zero counts and size and the directory offset at the starting position. |
| Archive.LocalAtArchive | Zipper/zipper.c:159-164 | Entry i's local header, name and content sit in the archive at the stream position after the records of the entries before it. |
| Archive.CentralAtArchive | Zipper/zipper.c:195-198 | Entry i's central header and name sit after the entry section and the central records before it, and point back at entry i's local header. |
| Archive.EocdAtArchive | Zipper/zipper.c:201-212 | The archive ends with the encoded end record. |
| Archive.EntriesAtArchive | Zipper/zipper.c:139-164 | Every entry's local record is in place in the archive. |
| Archive.DirectoryAtArchive | Zipper/zipper.c:195-198 | Every entry's central record is in place in the archive. |
| Entries.CString | Zipper/zipper.c:233-239 | The C string at the start of some memory is a NUL-free prefix of it, followed by a NUL whenever memory holds one. |
| Entries.CStringOfTerminated | Zipper/zipper.c:233-239 | A NUL-free string stored with its terminator reads back as itself, whatever follows. |
| Entries.MyStrLen | Zipper/zipper.c:233-239 | The count returned is the index of the first NUL, and every byte before it is non-zero. |
| Entries.MyStrcpy | Zipper/zipper.c:222-229 | The destination receives the first min(strlen(src), max_len - 1) bytes of the source and a NUL after them. The rest of the destination is unchanged. |
| Entries.CreateTextZipFile | Zipper/zipper.c:243-259 | The entry holds the name and the content each up to its first NUL. |
| Entries.CreateZipFile | NestedZipper/nestedzipper.c:235-255 | The entry holds the name up to its first NUL and exactly the first `size` content bytes. |
| Sinks.Sink.Append | Zipper/zipper.c:118-124 | A freshly created file is empty, with position 0. |
| Sinks.Sink.Bounded | NestedZipper/nestedzipper.c:271-282 | A buffer sink starts at the caller's cursor over the caller's buffer. |
| Sinks.Sink.Write | NestedZipper/nestedzipper.c:259-268 | A buffer sink succeeds exactly when the data fits. If it does not fit, the buffer and the cursor are unchanged. If it fits, the data lands at the cursor, the cursor advances by its length and every other byte is unchanged. A file sink always appends. |
| Writer.MeasureString | Zipper/zipper.c:155 | MyStrLen of a stored name or text content is its length. |
| Writer.WriteLocal | Zipper/zipper.c:140-164 | The header written is `LocalHeaderFor` of the entry, followed by the name and the content. In zipper.c the content length comes from MyStrLen, in nestedzipper.c from `size`. A buffer sink succeeds exactly when all three fit. |
| Writer.WriteEntry | NestedZipper/nestedzipper.c:285-346 | One pass of the first loop. The kept central header is the entry's, and it points at the cursor the entry started at (`centralDirStart`). Afterwards the cursor is past the entry's record. |
| Writer.WriteCentral | NestedZipper/nestedzipper.c:349-360 | One pass of the second loop writes the kept header and `filenameLength` bytes of the name. |
| Writer.WriteEntries | Zipper/zipper.c:139-189 | After the first loop the header array holds every entry's central header. `centralDirSize` is the sum of 46 plus the name lengths, and the cursor and `centralDirStart` are at the end of the entry section. On a buffer overflow the loop stops early, and the archive does not fit. |
| Writer.WriteDirectory | Zipper/zipper.c:195-198 | The second loop writes the central directory and ends `centralDirSize` bytes later. |
| Writer.WriteEnd | Zipper/zipper.c:201-212 | The end record written is `EocdFor` of the entries, and it is the last part of the archive. |
| Writer.WriteArchive | NestedZipper/nestedzipper.c:271-382 | What the sink received is a prefix of the archive for its starting position, and a buffer is unchanged outside the written span. It is the whole archive exactly when the sink is a file or the buffer has room. |
| Writer.CreateZip | Zipper/zipper.c:115-218 | The new file holds exactly the archive of the entries from position 0. The same holds for nestedzipper.c:109-211 with the name-length directory write. |
| Writer.CreateZipToMemory | NestedZipper/nestedzipper.c:271-382 | Returns 1 exactly when the archive fits from `*offset`, and then the cursor moves by the archive's length. On 0 the bytes written stay a proper prefix of the archive, with no rollback. The buffer before `*offset` and after the new cursor is unchanged. |
| Reader.RoundTrip | Zipper/zipper.c:115-218 | Reading the archive the writer produces, for up to 65535 entries within 32-bit positions, gives back exactly the entries in order. |
| Nested.CreateInnerZipInMemory | NestedZipper/nestedzipper.c:385-410 | A fresh zero-filled 1 MiB buffer receives the inner archive from position 0. The result is null exactly when the archive does not fit. Otherwise `zip_size` is the archive's length and the buffer is the archive followed by zeros. |
| Nested.WrapInnerZip | NestedZipper/nestedzipper.c:437 | The binary createZipFile call on the 1 MiB buffer copies exactly its first `inner_zip_size` bytes, so the entry's content is the inner archive without the zero tail and its name is the C string given. That content reads back as the inner entries. |
| Nested.CreateNestedZip | NestedZipper/nestedzipper.c:413-438 | Output exists exactly when the inner archive fits its buffer. It is then the archive of the outer entries followed by an entry holding the inner archive. |
| Nested.NestedRoundTrip | NestedZipper/nestedzipper.c:426-438 | The outer archive reads back as its entries, and the last entry's content reads back as the inner entries. |
| CentralNameOverread.CentralRecordAsWritten | NestedZipper/nestedzipper.c:188-191 | As written, each central record is the header followed by content-length bytes from the name's address. |
| CentralNameOverread.AsWrittenMatchesOnlyForEqualLengths | NestedZipper/nestedzipper.c:188-191 | The record as written is the intended one exactly when content and name have the same length. When the content is longer, the name's NUL terminator is copied into the directory. |
| CentralNameOverread.AsWrittenMisplacesEnd | NestedZipper/nestedzipper.c:181-201 | For one entry, the end record's directory offset plus size equals its own position exactly when the two lengths agree. Otherwise the reader rejects the archive. |
| CentralNameOverread.OuterEntryDirectoryOverread | NestedZipper/nestedzipper.c:190 | For the entry "outer1.txt" with content "Outer File 1", the directory record gets the name's NUL and one byte beyond it, and the archive does not read back. |

## Left out

- Win32 file I/O (`CreateFileA`, `WriteFile`, `SetFilePointer`, `CloseHandle`) is modelled by the file sink. It is an in-memory byte sequence whose position is its length. A `CreateFileA` failure, which makes `create_zip` return without writing, is not modelled.
- Heap allocation (`HeapAlloc`, `HeapFree`) is modelled by Dafny allocation, which cannot fail. A NULL from `HeapAlloc` is not modelled. In the C code it ends `create_zip`/`create_zip_to_memory` before any write, makes `create_inner_zip_in_memory` return NULL, and makes `createZipFile` write through NULL.
- `RtlCopyMemory` is modelled as assignment of the copied bytes into the buffer.
- `BeaconPrintf` logging is left out; it has no effect on the bytes.
- The `go` entry points (Zipper/zipper.c:664-694, NestedZipper/nestedzipper.c:413-439) with their fixed demo lists are left out. `Nested.CreateNestedZip` models the composition in nestedzipper.c's `go` for any entry lists. The C code does not check the inner buffer for NULL at line 426: it would copy from NULL with an uninitialised size. The model stops instead.
- The commented-out functions of Zipper/zipper.c:262-662 (`create_nested_zip`, `create_zip_in_memory`, `create_nested_zip_in_memory`) are dead code and are not modelled.
- Writer.WriteArchive: a buffer sink requires every name to be shorter than 0x8000 bytes. The memory path passes the `short` field `filenameLength` to `memory_write` as a length. For names of 0x8000 to 0xFFFF bytes that length is negative, so the length passed is huge, and the model does not follow it.
- Writer.CreateZipToMemory: requires names shorter than 0x8000 bytes, for the reason above.
- Nested.CreateInnerZipInMemory: requires inner names shorter than 0x8000 bytes, for the reason above.
- Entries.ValidEntry: entry names are NUL-free and shorter than 2^16 bytes, and contents are shorter than 2^31 bytes. These are the lengths the `short` name field and the `int size` hold. Longer ones wrap silently in C and are excluded here.
- Positions and sizes stored in 32-bit fields (relative offsets, directory size and offset) and the 16-bit entry counts are truncated explicitly with `Trunc32`/`Trunc16`. This is what the memory path does when it stores its `size_t` cursor and sum in `int` fields (NestedZipper/nestedzipper.c:340, 369-370). They are not excluded by precondition. `Reader.RoundTrip` assumes no wrap-around.
- Writer.CreateZip: archives of 4 GiB or more are not modelled faithfully. The file path takes its offsets from `SetFilePointer` with a NULL high word (Zipper/zipper.c:159, 192). Past 2^32 that call fails and returns 0xFFFFFFFF instead of the low 32 bits, so the C file would record 0xFFFFFFFF offsets where the model records the offsets cut to 32 bits. Below 4 GiB the contract is exact.
- The signed `int`/`short` reinterpretation of header fields is modelled as the same bit pattern in an unsigned field.
- The byte layout of the packed structs is modelled by explicit little-endian encoders.
- `Reader` is not part of the source. It is a reference reader that stands in for an unzip tool. It is stricter than most tools: the central directory must end right where the end record starts. It checks the signatures, that local and central headers agree on method, sizes and CRC, and the CRC-32 of each content.

## Findings

| source | as written | input that shows it | evidently intended | confidence | as-written member | corrected member |
|---|---|---|---|---|---|---|
| NestedZipper/nestedzipper.c:190 | After each central header, the loop writes `zip_files[i].size` bytes from the entry's name, the content's length. | Entry "outer1.txt" (10 bytes) with content "Outer File 1" (12 bytes): the record gets the NUL and one byte past the name's allocation. The end record's directory offset plus size misses its own position by 2, so the archive does not read back. | Write the name's length, as the header's `filenameLength` (line 171), the summed `centralDirSize` (line 181), zipper.c:197 and nestedzipper.c:356 do. | not executed | CentralNameOverread.OuterEntryDirectoryOverread | Writer.WriteCentral |
