/** Little-endian encoding of the 16- and 32-bit fields of the ZIP records
    (APPNOTE.TXT section 4.4.1.1: all values are stored in little-endian byte order,
    least significant byte first). */
module LittleEndian {
  import opened Common

  /** The low and high halves of a 32-bit value. */
  function Low(x: u32): u16 { x % 0x1_0000 }
  function High(x: u32): u16 { x / 0x1_0000 }

  /** The low and high bytes of a 16-bit value. */
  function Byte0(x: u16): byte { x % 0x100 }
  function Byte1(x: u16): byte { x / 0x100 }

  function Le16(x: u16): (s: seq<byte>)
    ensures |s| == 2
  {
    [Byte0(x), Byte1(x)]
  }

  function Le32(x: u32): (s: seq<byte>)
    ensures |s| == 4
  {
    Le16(Low(x)) + Le16(High(x))
  }

  /** The 16-bit value stored least significant byte first at `s[i..i + 2]`. */
  function Read16(s: seq<byte>, i: nat): u16
    requires i + 2 <= |s|
  {
    s[i] as int + 0x100 * s[i + 1] as int
  }

  /** The 32-bit value stored least significant byte first at `s[i..i + 4]`. */
  function Read32(s: seq<byte>, i: nat): u32
    requires i + 4 <= |s|
  {
    Read16(s, i) + 0x1_0000 * Read16(s, i + 2)
  }

  /** Reading back the two bytes of a 16-bit value gives the value. */
  lemma Read16Of(s: seq<byte>, i: nat, x: u16)
    requires i + 2 <= |s| && s[i] == Byte0(x) && s[i + 1] == Byte1(x)
    ensures Read16(s, i) == x
  {
  }

  /** Reading back the four bytes of a 32-bit value gives the value. */
  lemma Read32Of(s: seq<byte>, i: nat, x: u32)
    requires i + 4 <= |s| && s[i] == Byte0(Low(x)) && s[i + 1] == Byte1(Low(x))
    requires s[i + 2] == Byte0(High(x)) && s[i + 3] == Byte1(High(x))
    ensures Read32(s, i) == x
  {
    Read16Of(s, i, Low(x));
    Read16Of(s, i + 2, High(x));
  }

  lemma Le16RoundTrip(x: u16)
    ensures Read16(Le16(x), 0) == x
  {
    Read16Of(Le16(x), 0, x);
  }

  lemma Le32RoundTrip(x: u32)
    ensures Read32(Le32(x), 0) == x
  {
    Read32Of(Le32(x), 0, x);
  }

  lemma Le32Injective(x: u32, y: u32)
    requires Le32(x) == Le32(y)
    ensures x == y
  {
    Le32RoundTrip(x);
    Le32RoundTrip(y);
  }
}
