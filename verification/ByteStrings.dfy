/** Bytes and strings of them, and bytes as numbers. */
module ByteStrings {
  type Byte = bv8
  type Bytes = seq<Byte>

  /** The byte of a number, counted up from zero; it wraps around after the largest byte. */
  function OfNumber(n: nat): Byte {
    if n == 0 then 0 else OfNumber(n - 1) + 1
  }
}
