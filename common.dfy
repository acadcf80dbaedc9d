/** Shared vocabulary of the model: bytes, the fixed-width unsigned fields of the ZIP
    records, C's truncating conversions into those widths, and an Option type for
    operations that can fail. */
module Common {

  /** One byte of an archive stream, as an unsigned value. */
  type byte = x: int | 0 <= x < 0x100

  /** Values of a 16-bit field (`short` in the C structs, used unsigned on disk). */
  type u16 = x: int | 0 <= x < 0x1_0000

  /** Values of a 32-bit field (`int` in the C structs, used unsigned on disk). */
  type u32 = x: int | 0 <= x < 0x1_0000_0000

  /** Storing a non-negative count into a 16-bit field keeps its low 16 bits. */
  function Trunc16(n: nat): (r: u16)
    ensures n < 0x1_0000 ==> r == n
  {
    n % 0x1_0000
  }

  /** Storing a non-negative count into a 32-bit field keeps its low 32 bits. */
  function Trunc32(n: nat): (r: u32)
    ensures n < 0x1_0000_0000 ==> r == n
  {
    n % 0x1_0000_0000
  }

  datatype Option<T> = None | Some(value: T)
}
