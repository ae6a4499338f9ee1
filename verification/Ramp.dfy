/** Objects filled with a ramp of bytes, generated by copying chunks of a precomputed table. */
module Ramp {
  import opened Arithmetic
  import opened ByteStrings

  const MODULUS: nat := 251
  const CHUNK: nat := 4 * 1024 * MODULUS

  /** The byte at position `k` of the ramp. */
  function RampByte(k: nat): Byte {
    OfNumber(k % MODULUS)
  }

  /** It starts at 0, counts up, and starts over at every multiple of 251. */
  lemma RampByteCounts(k: nat)
    ensures RampByte(0) == 0
    ensures RampByte(k + 1) == if (k + 1) % 251 == 0 then 0 else RampByte(k) + 1
  {
    NextMod(k);
  }

  lemma NextMod(k: nat)
    ensures (k + 1) % 251 == if k % 251 == 250 then 0 else k % 251 + 1
  {
    var q, r := k / 251, k % 251;
    assert k == q * 251 + r;
    if r == 250 {
      ModUnique(k + 1, q + 1, 0, 251);
    } else {
      ModUnique(k + 1, q, r + 1, 251);
    }
  }

  /** Bytes counting up from `seed`, modulo MODULUS. */
  function RampBytes(seed: nat, size: nat): Bytes {
    seq(size, i requires 0 <= i < size => RampByte(seed + i))
  }

  /** Each byte of a ramp is one more than the one before, or 0 at a multiple of 251. */
  ghost predicate Ramps(bytes: Bytes, seed: nat) {
    && (bytes != [] ==> bytes[0] == OfNumber(seed % 251))
    && forall i | 0 < i < |bytes| :: bytes[i] == if (seed + i) % 251 == 0 then 0 else bytes[i - 1] + 1
  }

  lemma RampBytesRamp(seed: nat, size: nat)
    ensures |RampBytes(seed, size)| == size && Ramps(RampBytes(seed, size), seed)
  {
    hide OfNumber;
    var bytes := RampBytes(seed, size);
    assert bytes != [] ==> bytes[0] == RampByte(seed);
    forall i | 0 < i < |bytes| ensures bytes[i] == if (seed + i) % 251 == 0 then 0 else bytes[i - 1] + 1 {
      RampByteCounts(seed + i - 1);
    }
  }

  method MakeRampBytes(seed: nat, size: nat) returns (bytes: Bytes)
    ensures bytes == RampBytes(seed, size)
  {
    bytes := [];
    for i := 0 to size
      invariant |bytes| == i && forall j | 0 <= j < i :: bytes[j] == RampByte(seed + j)
    {
      bytes := bytes + [RampByte(seed + i)];
    }
  }

  lemma ModAdd(a: nat, b: nat)
    ensures (a % MODULUS + b) % MODULUS == (a + b) % MODULUS
  {
    var q, r := a / MODULUS, a % MODULUS;
    var q', r' := (r + b) / MODULUS, (r + b) % MODULUS;
    ModUnique(a + b, q + q', r', MODULUS);
  }

  /** Whole chunks do not change the phase. */
  lemma SamePhase(start: nat, chunks: nat, i: nat)
    ensures (start % MODULUS + i) % MODULUS == (start + chunks * CHUNK + i) % MODULUS
  {
    ModAdd(start, i);
    var q := start + i;
    assert q == (q / MODULUS) * MODULUS + q % MODULUS;
    ModUnique(start + chunks * CHUNK + i, q / MODULUS + chunks * (4 * 1024), q % MODULUS, MODULUS);
  }

  lemma SameByte(start: nat, chunks: nat, i: nat)
    ensures RampByte(start % MODULUS + i) == RampByte(start + chunks * CHUNK + i)
  {
    SamePhase(start, chunks, i);
  }

  /** A piece of the table, read at the right phase, is a piece of the ramp wherever a whole number of chunks
      has gone before. */
  lemma TablePiece(start: nat, chunks: nat, n: nat)
    requires n <= CHUNK
    ensures var phase := start % MODULUS;
            && phase + n <= CHUNK + MODULUS
            && RampBytes(0, CHUNK + MODULUS)[phase..phase + n] == RampBytes(start + chunks * CHUNK, n)
  {
    hide RampByte;
    var phase := start % MODULUS;
    var piece, ramp := RampBytes(0, CHUNK + MODULUS)[phase..phase + n], RampBytes(start + chunks * CHUNK, n);
    forall i | 0 <= i < n ensures piece[i] == ramp[i] {
      SameByte(start, chunks, i);
    }
  }

  lemma RampAppend(seed: nat, m: nat, n: nat)
    ensures RampBytes(seed, m) + RampBytes(seed + m, n) == RampBytes(seed, m + n)
  {
  }

  /** The chunk-copying generator yields exactly the simple ramp, and never reads past its table. */
  method Generate(seed: nat, offset: nat, size: nat) returns (bytes: Bytes)
    ensures bytes == RampBytes(seed + offset, size)
    ensures |bytes| == size && Ramps(bytes, seed + offset)
  {
    hide RampByte, Ramps;
    var table := MakeRampBytes(0, CHUNK + MODULUS);
    bytes := [];
    var phase := (offset + seed) % MODULUS;
    var left := size;
    ghost var chunks := 0;
    while left > 0
      invariant 0 <= left <= size
      invariant bytes == RampBytes(seed + offset, size - left)
      invariant left > 0 ==> size - left == chunks * CHUNK
    {
      var n := if left < CHUNK then left else CHUNK;
      TablePiece(seed + offset, chunks, n);
      RampAppend(seed + offset, size - left, n);
      bytes := bytes + table[phase..phase + n];
      left := left - n;
      chunks := chunks + 1;
    }
    RampBytesRamp(seed + offset, size);
  }
}
