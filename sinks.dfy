/** Where the archive writer sends its bytes. The file version of create_zip writes to a
    freshly created file and ignores every WriteFile result, so its sink takes every
    write and its position (what SetFilePointer reports) is the file's length. The memory
    version writes through memory_write into the caller's buffer at a cursor, refusing a
    write that does not fit. One class covers both, told apart by `bounded`. */
module Sinks {
  import opened Common

  class Sink {
    /** Whether this is a caller's buffer (memory_write) rather than a file. */
    const bounded: bool
    /** The caller's buffer; a file sink has an empty one it never touches. */
    const buffer: array<byte>
    /** The file pointer of a file sink, the cursor `*offset` of a buffer sink. */
    var offset: nat
    /** The bytes of a file sink's file; a buffer sink leaves it empty. */
    var file: seq<byte>
    /** Every byte accepted so far, from the position the sink started at. */
    ghost var written: seq<byte>
    ghost const start: nat

    ghost predicate Valid()
      reads this, buffer
    {
      offset == start + |written|
      && if bounded then offset <= buffer.Length && buffer[start..offset] == written
         else start == 0 && file == written
    }

    /** A freshly created (CREATE_ALWAYS) file: empty, position 0. */
    constructor Append()
      ensures Valid() && !bounded && offset == 0 && file == [] && written == []
      ensures fresh(buffer)
    {
      bounded := false;
      buffer := new byte[0];
      offset := 0;
      file := [];
      written := [];
      start := 0;
    }

    /** The caller's buffer with the cursor at `cursor`. */
    constructor Bounded(buf: array<byte>, cursor: nat)
      requires cursor <= buf.Length
      ensures Valid() && bounded && buffer == buf && offset == cursor && written == []
      ensures file == []
    {
      bounded := true;
      buffer := buf;
      offset := cursor;
      file := [];
      written := [];
      start := cursor;
    }

    /** The current position: SetFilePointer(h, 0, NULL, FILE_CURRENT) for a file, the
        cursor for a buffer. */
    function Position(): nat
      reads this
    {
      offset
    }

    /** WriteFile for a file sink: append, always succeeding. memory_write for a buffer
        sink: if the data does not fit between the cursor and the end of the buffer,
        fail and change nothing; otherwise copy it in at the cursor, advance the cursor
        by its length and leave every other byte as it was. */
    method Write(data: seq<byte>) returns (ok: bool)
      requires Valid()
      modifies this, buffer
      ensures Valid()
      ensures ok == (!bounded || old(offset) + |data| <= buffer.Length)
      ensures ok ==> offset == old(offset) + |data| && written == old(written) + data
      ensures !ok ==> offset == old(offset) && written == old(written)
      ensures !bounded ==> file == old(file) + data
      ensures bounded ==> file == old(file)
      ensures bounded && ok ==>
        buffer[..old(offset)] == old(buffer[..offset])
        && buffer[old(offset)..offset] == data
        && buffer[offset..] == old(buffer[offset + |data|..])
      ensures bounded && !ok ==> buffer[..] == old(buffer[..])
    {
      if !bounded {
        file := file + data;
        offset := offset + |data|;
        written := written + data;
        return true;
      }
      if offset + |data| > buffer.Length {
        return false;
      }
      forall k | 0 <= k < |data| {
        buffer[offset + k] := data[k];
      }
      assert buffer[offset..offset + |data|] == data;
      assert buffer[start..offset + |data|]
        == buffer[start..offset] + buffer[offset..offset + |data|];
      offset := offset + |data|;
      written := written + data;
      ok := true;
    }
  }
}
