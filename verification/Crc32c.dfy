/** CRC32C as a reflected bit-by-bit shift register, and the algebra of joining checksums.

    The polynomial is the CRC32C polynomial of section 12.1 of RFC 3720 (0x1EDC6F41), bit-reversed.
  */
module Crc32c {
  import opened ByteStrings
  import opened ShiftRegister

  type Crc = bv32

  const ALL_ONES: bv32 := 0xFFFF_FFFF
  const BITS_PER_BYTE: nat := 8

  /** One clock of the register with a zero input bit. */
  function Bit(r: bv32): bv32 {
    if r & 1 == 1 then (r >> 1) ^ 0x82F6_3B78 else r >> 1
  }

  function Xor(a: bv32, b: bv32): bv32 {
    a ^ b
  }

  function Widen(x: bv8): bv32 {
    x as bv32
  }

  function EightBits(r: bv32): bv32 {
    Iterate(Bit, r, BITS_PER_BYTE)
  }

  /** A byte enters the low bits of the register, which is then clocked eight times. */
  const CRC: Register<bv32, bv8> := Register(Xor, Widen, EightBits)

  /** The CRC32C checksum of `s`: all-ones initial register, all-ones final exclusive or. */
  function Checksum(s: Bytes): Crc {
    Digest(CRC, ALL_ONES, s)
  }

  /** The checksum of a concatenation, computed from the checksums of its two halves
      and the length of the second: the first is shifted by that many zero bytes. */
  function Combine(prefixCrc: Crc, suffixCrc: Crc, suffixLen: nat): Crc {
    CRC.add(Shift(CRC, prefixCrc, suffixLen), suffixCrc)
  }

  // ----- The register is linear and injective -----

  lemma BitLinear(a: bv32, b: bv32)
    ensures Bit(Xor(a, b)) == Xor(Bit(a), Bit(b))
  {
    XorShift(a, b);
    LowBit(a);
    LowBit(b);
    XorFacts(a >> 1, b >> 1, 0x82F6_3B78);
  }

  lemma XorFacts(x: bv32, y: bv32, p: bv32)
    ensures (x ^ p) ^ (y ^ p) == x ^ y
    ensures x ^ (y ^ p) == (x ^ y) ^ p
    ensures (x ^ p) ^ y == (x ^ y) ^ p
  {
  }

  lemma XorShift(a: bv32, b: bv32)
    ensures (a ^ b) >> 1 == (a >> 1) ^ (b >> 1)
    ensures (a ^ b) & 1 == (a & 1) ^ (b & 1)
  {
  }

  lemma LowBit(a: bv32)
    ensures a & 1 == 0 || a & 1 == 1
  {
  }

  /** The clock run backwards: the top bit of the register says whether the polynomial was added. */
  function Unbit(r: bv32): bv32 {
    if r & 0x8000_0000 != 0 then ((r ^ 0x82F6_3B78) << 1) | 1 else r << 1
  }

  lemma UnbitBit(r: bv32)
    ensures Unbit(Bit(r)) == r
  {
    LowBit(r);
    UnbitOdd(r);
    UnbitEven(r);
  }

  lemma BitInjective(a: bv32, b: bv32)
    requires Bit(a) == Bit(b)
    ensures a == b
  {
    UnbitBit(a);
    UnbitBit(b);
  }

  lemma UnbitOdd(r: bv32)
    ensures r & 1 == 1 ==> Unbit((r >> 1) ^ 0x82F6_3B78) == r
  {
  }

  lemma UnbitEven(r: bv32)
    ensures r & 1 == 0 ==> Unbit(r >> 1) == r
  {
  }

  lemma BitLinearStep()
    ensures LinearStep(Xor, Bit)
  {
    forall a, b ensures Linear(Xor, Bit, a, b) {
      BitLinear(a, b);
    }
  }

  lemma BitInjectiveStep()
    ensures InjectiveStep(Bit)
  {
    forall a, b ensures Injective(Bit, a, b) {
      if Bit(a) == Bit(b) {
        BitInjective(a, b);
      }
    }
  }

  lemma ClockLawful()
    ensures LinearStep(Xor, EightBits)
    ensures InjectiveStep(EightBits)
  {
    BitLinearStep();
    BitInjectiveStep();
    forall a, b ensures Linear(Xor, EightBits, a, b) {
      IterateLinear(Xor, Bit, a, b, BITS_PER_BYTE);
    }
    forall a, b ensures Injective(EightBits, a, b) {
      if EightBits(a) == EightBits(b) {
        IterateInjective(Bit, a, b, BITS_PER_BYTE);
      }
    }
  }

  lemma XorRegroups(a: bv32, b: bv32, c: bv32)
    ensures Regroups(Xor, a, b, c)
  {
    XorAssociative(a, b, c);
  }

  lemma XorAssociative(a: bv32, b: bv32, c: bv32)
    ensures Xor(Xor(a, b), c) == Xor(a, Xor(b, c))
  {
  }

  lemma XorUndoes(a: bv32, b: bv32)
    ensures Undoes(Xor, a, b)
  {
  }

  lemma XorCancels(a: bv32, b: bv32, c: bv32)
    ensures Cancels(Xor, a, b, c)
  {
  }

  lemma CrcLawful()
    ensures Lawful(CRC)
  {
    ClockLawful();
    forall a, b, c {
      XorRegroups(a, b, c);
    }
    forall a, b {
      XorUndoes(a, b);
    }
    forall a, b, c {
      XorCancels(a, b, c);
    }
  }

  // ----- Joining checksums -----

  /** Combining is exact: the checksum of `a + b` needs only the two checksums and `|b|`. */
  lemma CombineExact(a: Bytes, b: Bytes)
    ensures Combine(Checksum(a), Checksum(b), |b|) == Checksum(a + b)
  {
    CrcLawful();
    DigestAppend(CRC, ALL_ONES, a, b);
  }

  /** The empty buffer's checksum is the zero that `ChecksummedBytes::default` carries. */
  lemma ChecksumEmpty()
    ensures Checksum([]) == 0
  {
  }

  /** With the suffix length fixed, a wrong checksum on exactly one side always shows. */
  lemma CombineInjective(p: Crc, q: Crc, s: Crc, t: Crc, n: nat)
    requires Combine(p, s, n) == Combine(q, t, n)
    ensures p == q <==> s == t
  {
    CrcLawful();
    JoinInjective(CRC, p, q, s, t, n);
  }

  /** Combining the same prefix twice leaves the suffix checksum. */
  lemma CombineUndo(p: Crc, s: Crc, n: nat)
    ensures Combine(p, Combine(p, s, n), n) == s
  {
    XorAgain(Shift(CRC, p, n), s);
  }

  lemma XorAgain(a: bv32, b: bv32)
    ensures Xor(a, Xor(a, b)) == b
  {
  }

  lemma WidenInjective(x: Byte, y: Byte)
    requires Widen(x) == Widen(y)
    ensures x == y
  {
  }

  /** Every change of a single byte, anywhere in the data, changes the checksum. */
  lemma SingleByteErrorDetected(a: Bytes, x: Byte, y: Byte, b: Bytes)
    requires x != y
    ensures Checksum(a + [x] + b) != Checksum(a + [y] + b)
  {
    if Checksum(a + [x] + b) == Checksum(a + [y] + b) {
      CrcLawful();
      DigestDetects(CRC, ALL_ONES, a, x, y, b);
      WidenInjective(x, y);
    }
  }

  /** The check value of CRC32C: the checksum of the nine ASCII digits "123456789". */
  lemma CheckValue()
    ensures Checksum([0x31, 0x32, 0x33, 0x34, 0x35, 0x36, 0x37, 0x38, 0x39]) == 0xE306_9283
  {
    FeedByte(0xFFFF_FFFF, 0x31, [0x32, 0x33, 0x34, 0x35, 0x36, 0x37, 0x38, 0x39]);
    FeedByte(0x6F0A_661C, 0x32, [0x33, 0x34, 0x35, 0x36, 0x37, 0x38, 0x39]);
    FeedByte(0x8CAA_3B9F, 0x33, [0x34, 0x35, 0x36, 0x37, 0x38, 0x39]);
    FeedByte(0xEF84_D04D, 0x34, [0x35, 0x36, 0x37, 0x38, 0x39]);
    LastDigits();
  }

  lemma LastDigits()
    ensures Run(CRC, 0x09C5_0B11, [0x35, 0x36, 0x37, 0x38, 0x39]) == 0x1CF9_6D7C
  {
    FeedByte(0x09C5_0B11, 0x35, [0x36, 0x37, 0x38, 0x39]);
    FeedByte(0xE72E_DCCA, 0x36, [0x37, 0x38, 0x39]);
    FeedByte(0xBECA_8E79, 0x37, [0x38, 0x39]);
    FeedByte(0xEDBD_6815, 0x38, [0x39]);
    FeedByte(0x9F78_7F65, 0x39, []);
  }

  lemma FeedByte(r: bv32, x: Byte, rest: Bytes)
    ensures Run(CRC, r, [x] + rest) == Run(CRC, Bit(Bit(Bit(Bit(Bit(Bit(Bit(Bit(Xor(r, Widen(x)))))))))), rest)
  {
    hide Bit, Xor, Widen;
    assert ([x] + rest)[1..] == rest;
    UnrollByte(Xor(r, Widen(x)));
  }

  lemma UnrollByte(r: bv32)
    ensures EightBits(r) == Bit(Bit(Bit(Bit(Bit(Bit(Bit(Bit(r))))))))
  {
    hide Bit;
    var r1 := Bit(r);
    var r2 := Bit(r1);
    var r3 := Bit(r2);
    var r4 := Bit(r3);
    assert Iterate(Bit, r, 8) == Iterate(Bit, r1, 7) == Iterate(Bit, r2, 6) == Iterate(Bit, r3, 5);
    assert Iterate(Bit, r3, 5) == Iterate(Bit, r4, 4);
  }
}
